/** Consumer groups: the cursor operations on a topic's chunk, step by step
    (src/messaging/consume_packet.c, ack_packet.c, manage_groups.c). */
module Groups {
  import opened Machine
  import opened ChunkStore
  import opened Framing
  import opened Publishing
  import C = Cursors

  class Group {
    const groupId: string
    const attachedTopic: Topic?
    var readPointer: size_t
    var lastReadSize: size_t

    /** The allocation in `create_group`; groups start at offset 0. */
    constructor (groupId: string, topic: Topic?)
      ensures this.groupId == groupId && attachedTopic == topic
      ensures Place() == C.Cursor(0, 0)
    {
      this.groupId, attachedTopic := groupId, topic;
      readPointer, lastReadSize := 0, 0;
    }

    ghost function Place(): C.Cursor
      reads this
    {
      C.Cursor(readPointer, lastReadSize)
    }

    /** The checks that every operation makes on the topic it is given. */
    ghost predicate Serves(topic: Topic?) {
      topic != null && topic == attachedTopic && topic.chunk != null
    }

    static ghost function Touched(topic: Topic?): set<object>
      reads if topic == null then {} else {topic.chunk}
    {
      if topic == null then {} else topic.Reach()
    }

    static ghost predicate Ready(topic: Topic?)
      reads if topic == null then {} else {topic.chunk}
    {
      topic != null ==> topic.Ready()
    }

    /** What a load with this fault would show. */
    static ghost function SightIn(topic: Topic?, fault: LoadFault): Sight
      requires topic != null && topic.chunk != null && topic.chunk.Valid()
      reads topic.chunk, topic.chunk.data, topic.chunk.file
    {
      SightOf(topic.chunk.Value(), topic.chunk.file.content, fault)
    }

    static ghost function AfterLoad(topic: Topic?, fault: LoadFault): View
      requires topic != null && topic.chunk != null && topic.chunk.Valid()
      reads topic.chunk, topic.chunk.data, topic.chunk.file
    {
      Loaded(topic.chunk.Value(), topic.chunk.file.content, fault)
    }

    /** The length field at `offset` of what the chunk holds in RAM. */
    static method ReadHeader(chunk: Chunk, offset: size_t) returns (n: Option<uint32>)
      requires chunk.Valid()
      ensures n == C.HeaderAt(chunk.Value().ram, offset)
    {
      if Plus(offset, HEADER) > chunk.size {
        return None;
      }
      var b := chunk.Read(HEADER, offset);
      if |b| != HEADER {
        return None;
      }
      return Some(DecodeU32(b));
    }

    /** `read_packet_size_header`, and `peek_packet_size`, which repeats it. */
    method PeekSize(topic: Topic?, fault: LoadFault) returns (size: Option<uint32>)
      requires Ready(topic)
      modifies Touched(topic)
      ensures Ready(topic) && fresh(Touched(topic) - old(Touched(topic)))
      ensures topic == null || topic.chunk == null ==> size == None
      ensures topic != null && topic.chunk != null ==> topic.chunk.Value() == old(AfterLoad(topic, fault))
      ensures topic != null && topic.chunk != null ==>
                size == if old(SightIn(topic, fault)) == Unread then None
                        else C.HeaderAt(See(topic.chunk.file.content, old(SightIn(topic, fault))), readPointer)
    {
      if topic == null || topic.chunk == null {
        return None;
      }
      var code := topic.chunk.Load(fault);
      if code != 0 {
        return None;
      }
      size := ReadHeader(topic.chunk, readPointer);
    }

    /** The steps of `consume_packet` from its second load on. */
    method FinishConsume(topic: Topic, fault: LoadFault, canAlloc: bool) returns (packet: Option<C.Packet>)
      requires topic.Ready() && topic.chunk != null
      modifies this, topic.Reach()
      ensures topic.Ready() && fresh(topic.Reach() - old(topic.Reach()))
      ensures topic.chunk.Value() == old(AfterLoad(topic, fault))
      ensures C.Outcome(Place(), packet)
           == C.FinishConsume(topic.chunk.file.content, old(SightIn(topic, fault)), old(Place()), canAlloc)
    {
      var n := PeekSize(topic, fault);
      if n == None || n.value == 0 || n.value > MAX_EVENT {
        return None;
      }
      packet := TakeBody(topic.chunk, n.value, canAlloc);
    }

    /** The copy of the payload and the move behind it. */
    method TakeBody(chunk: Chunk, n: uint32, canAlloc: bool) returns (packet: Option<C.Packet>)
      requires chunk.Valid() && 1 <= n <= MAX_EVENT
      modifies this
      ensures C.Outcome(Place(), packet) == C.Take(chunk.Value().ram, old(Place()), n, canAlloc)
    {
      if Plus(Plus(readPointer, HEADER), n) > chunk.size || !canAlloc {
        return None;
      }
      var body := chunk.Read(n, Plus(readPointer, HEADER));
      if |body| != n {
        return None;
      }
      packet := Some(C.Packet(n, body, readPointer));
      readPointer := Plus(readPointer, HEADER + n);
      lastReadSize := HEADER + n;
    }

    /** `consume_packet`: it loads the file twice, the second time to read the length. */
    method Consume(topic: Topic?, fault1: LoadFault, fault2: LoadFault, canAlloc: bool)
      returns (packet: Option<C.Packet>)
      requires Ready(topic)
      modifies this, Touched(topic)
      ensures Ready(topic) && fresh(Touched(topic) - old(Touched(topic)))
      ensures !Serves(topic) ==> packet == None && unchanged(this) && unchanged(old(Touched(topic)))
      ensures Serves(topic) ==>
                topic.chunk.Value()
                == C.ViewAfterConsume(topic.chunk.file.content, old(topic.chunk.Value()), old(Place()), fault1, fault2)
      ensures Serves(topic) ==>
                C.Outcome(Place(), packet)
                == C.ConsumeFrom(topic.chunk.file.content, old(topic.chunk.Value()), old(Place()), fault1, fault2, canAlloc)
    {
      if topic == null || attachedTopic != topic || topic.chunk == null {
        return None;
      }
      var code := topic.chunk.Load(fault1);
      if code != 0 || readPointer >= topic.chunk.size {
        return None;
      }
      packet := FinishConsume(topic, fault2, canAlloc);
    }

    /** `consume_packet_with_size` */
    method ConsumeSized(topic: Topic?, n: size_t, fault: LoadFault, canAlloc: bool) returns (packet: Option<C.Packet>)
      requires Ready(topic)
      modifies this, Touched(topic)
      ensures Ready(topic) && fresh(Touched(topic) - old(Touched(topic)))
      ensures !Serves(topic) ==> packet == None && unchanged(this) && unchanged(old(Touched(topic)))
      ensures Serves(topic) ==>
                topic.chunk.Value() == if n == 0 || n > MAX_EVENT then old(topic.chunk.Value()) else old(AfterLoad(topic, fault))
      ensures Serves(topic) ==>
                C.Outcome(Place(), packet)
                == C.ConsumeSized(topic.chunk.file.content, old(SightIn(topic, fault)), old(Place()), n, canAlloc)
    {
      if topic == null || n == 0 || n > MAX_EVENT || attachedTopic != topic || topic.chunk == null {
        return None;
      }
      var code := topic.chunk.Load(fault);
      if code != 0 || Plus(readPointer, n) > topic.chunk.size || !canAlloc {
        return None;
      }
      var body := topic.chunk.Read(n, readPointer);
      if |body| != n {
        return None;
      }
      packet := Some(C.Packet(n, body, readPointer));
      readPointer := Plus(readPointer, n);
      lastReadSize := n;
    }

    /** `ack_packet`, on the topic the group is attached to. */
    method AckPacket(packet: C.Packet, fault: LoadFault) returns (code: int)
      requires Ready(attachedTopic)
      modifies this, Touched(attachedTopic)
      ensures Ready(attachedTopic) && fresh(Touched(attachedTopic) - old(Touched(attachedTopic)))
      ensures !Serves(attachedTopic) ==> code == -1 && unchanged(this) && unchanged(old(Touched(attachedTopic)))
      ensures Serves(attachedTopic) ==> attachedTopic.chunk.Value() == old(AfterLoad(attachedTopic, fault))
      ensures Serves(attachedTopic) ==>
                C.Outcome(Place(), code)
                == C.AckPacket(attachedTopic.chunk.file.content, old(SightIn(attachedTopic, fault)), old(Place()),
                               packet.offset, packet.size)
    {
      if attachedTopic == null || attachedTopic.chunk == null {
        return -1;
      }
      code := attachedTopic.chunk.Load(fault);
      if code != 0 {
        return -1;
      }
      var end := Plus(packet.offset, HEADER + packet.size);
      if end > attachedTopic.chunk.size {
        return -1;
      }
      if readPointer < end {
        readPointer := end;
      }
      return 0;
    }

    /** `ack_packet_by_size` */
    method AckBySize(topic: Topic?, n: size_t, fault: LoadFault) returns (code: int)
      requires Ready(topic)
      modifies this, Touched(topic)
      ensures Ready(topic) && fresh(Touched(topic) - old(Touched(topic)))
      ensures !Serves(topic) ==> code == -1 && unchanged(this) && unchanged(old(Touched(topic)))
      ensures Serves(topic) ==>
                topic.chunk.Value() == if n == 0 then old(topic.chunk.Value()) else old(AfterLoad(topic, fault))
      ensures Serves(topic) ==>
                C.Outcome(Place(), code)
                == C.AckBySize(topic.chunk.file.content, old(SightIn(topic, fault)), old(Place()), n)
    {
      if topic == null || n == 0 || attachedTopic != topic || topic.chunk == null {
        return -1;
      }
      code := topic.chunk.Load(fault);
      if code != 0 || Plus(Plus(readPointer, HEADER), n) > topic.chunk.size {
        return -1;
      }
      readPointer := Plus(readPointer, Plus(HEADER, n));
      lastReadSize := Plus(HEADER, n);
      return 0;
    }

    /** `ack_packet_by_offset` */
    method AckByOffset(topic: Topic?, offset: size_t, n: size_t, fault: LoadFault) returns (code: int)
      requires Ready(topic)
      modifies this, Touched(topic)
      ensures Ready(topic) && fresh(Touched(topic) - old(Touched(topic)))
      ensures !Serves(topic) ==> code == -1 && unchanged(this) && unchanged(old(Touched(topic)))
      ensures Serves(topic) ==>
                topic.chunk.Value() == if n == 0 then old(topic.chunk.Value()) else old(AfterLoad(topic, fault))
      ensures Serves(topic) ==>
                C.Outcome(Place(), code)
                == C.AckByOffset(topic.chunk.file.content, old(SightIn(topic, fault)), old(Place()), offset, n)
    {
      if topic == null || n == 0 || attachedTopic != topic || topic.chunk == null {
        return -1;
      }
      code := topic.chunk.Load(fault);
      if code != 0 {
        return -1;
      }
      var end := Plus(offset, Plus(HEADER, n));
      if end > topic.chunk.size {
        return -1;
      }
      if readPointer < end {
        readPointer := end;
      }
      return 0;
    }

    /** The end of the frame at `offset`, if the chunk holds it whole. */
    static method NextFrame(chunk: Chunk, offset: size_t) returns (next: Option<size_t>)
      requires chunk.Valid()
      ensures next == C.NextFrame(chunk.Value().ram, offset)
    {
      var n := ReadHeader(chunk, offset);
      if n == None || Plus(offset, HEADER + n.value) > chunk.size {
        return None;
      }
      return Some(Plus(offset, HEADER + n.value));
    }

    /** The loop of `ack_packet_batch`. */
    static method WalkFrames(chunk: Chunk, start: size_t, count: nat) returns (offset: size_t, acked: nat)
      requires chunk.Valid()
      ensures C.Reach(offset, acked) == C.Walk(chunk.Value().ram, start, count)
    {
      ghost var ram := chunk.Value().ram;
      ghost var goal := C.Walk(ram, start, count);
      offset, acked := start, 0;
      while acked < count
        invariant acked <= count
        invariant goal == C.Further(C.Walk(ram, offset, count - acked), acked)
      {
        var next := NextFrame(chunk, offset);
        if next == None {
          break;
        }
        offset, acked := next.value, acked + 1;
      }
    }

    /** `ack_packet_batch` */
    method AckBatch(topic: Topic?, count: nat, fault: LoadFault) returns (code: int)
      requires Ready(topic)
      modifies this, Touched(topic)
      ensures Ready(topic) && fresh(Touched(topic) - old(Touched(topic)))
      ensures !Serves(topic) ==> code == -1 && unchanged(this) && unchanged(old(Touched(topic)))
      ensures Serves(topic) ==>
                topic.chunk.Value() == if count == 0 then old(topic.chunk.Value()) else old(AfterLoad(topic, fault))
      ensures Serves(topic) ==>
                C.Outcome(Place(), code)
                == C.AckBatch(topic.chunk.file.content, old(SightIn(topic, fault)), old(Place()), count)
    {
      if topic == null || count == 0 || attachedTopic != topic || topic.chunk == null {
        return -1;
      }
      code := topic.chunk.Load(fault);
      if code != 0 {
        return -1;
      }
      var offset, acked := WalkFrames(topic.chunk, readPointer, count);
      if acked > 0 {
        lastReadSize := C.Minus(offset, readPointer);
        readPointer := offset;
      }
      return if acked == count then 0 else -1;
    }

    /** `ack_packet_batch_by_size` */
    method AckBatchBySize(topic: Topic?, sizes: seq<size_t>, fault: LoadFault) returns (code: int)
      requires Ready(topic)
      modifies this, Touched(topic)
      ensures Ready(topic) && fresh(Touched(topic) - old(Touched(topic)))
      ensures !Serves(topic) ==> code == -1 && unchanged(this) && unchanged(old(Touched(topic)))
      ensures Serves(topic) ==>
                topic.chunk.Value() == if sizes == [] then old(topic.chunk.Value()) else old(AfterLoad(topic, fault))
      ensures Serves(topic) ==>
                C.Outcome(Place(), code)
                == C.AckBatchBySize(topic.chunk.file.content, old(SightIn(topic, fault)), old(Place()), sizes)
    {
      if topic == null || |sizes| == 0 || attachedTopic != topic || topic.chunk == null {
        return -1;
      }
      code := topic.chunk.Load(fault);
      if code != 0 {
        return -1;
      }
      var total: size_t := 0;
      for i := 0 to |sizes|
        invariant unchanged(this) && C.TotalOf(sizes[..i]) == Some(total)
      {
        assert sizes[..i + 1][..i] == sizes[..i];
        if sizes[i] == 0 {
          ZeroSpoilsTotal(sizes, i);
          return -1;
        }
        total := Plus(total, Plus(HEADER, sizes[i]));
      }
      assert sizes[..|sizes|] == sizes;
      if Plus(readPointer, total) > topic.chunk.size {
        return -1;
      }
      readPointer, lastReadSize := Plus(readPointer, total), total;
      return 0;
    }

    static lemma {:induction false} ZeroSpoilsTotal(sizes: seq<size_t>, i: nat)
      requires i < |sizes| && sizes[i] == 0
      ensures C.TotalOf(sizes) == None
      decreases |sizes|
    {
      if i < |sizes| - 1 {
        ZeroSpoilsTotal(sizes[..|sizes| - 1], i);
      }
    }

    /** `set_group_pointer`; `reset_group_pointer` is the case of offset 0. */
    method SetPointer(offset: size_t, fault: LoadFault) returns (code: int)
      requires Ready(attachedTopic)
      modifies this, Touched(attachedTopic)
      ensures Ready(attachedTopic) && fresh(Touched(attachedTopic) - old(Touched(attachedTopic)))
      ensures !Serves(attachedTopic) ==> code == -1 && unchanged(this) && unchanged(old(Touched(attachedTopic)))
      ensures Serves(attachedTopic) ==>
                attachedTopic.chunk.Value() == old(AfterLoad(attachedTopic, fault))
      ensures Serves(attachedTopic) ==>
                C.Outcome(Place(), code)
                == C.SetPointer(attachedTopic.chunk.file.content, old(SightIn(attachedTopic, fault)), old(Place()), offset)
    {
      if attachedTopic == null || attachedTopic.chunk == null {
        return -1;
      }
      code := attachedTopic.chunk.Load(fault);
      if code != 0 {
        return -1;
      }
      readPointer := if offset > attachedTopic.chunk.size then attachedTopic.chunk.size else offset;
      return 0;
    }

    /** `advance_group_pointer` */
    method Advance(n: size_t, fault: LoadFault) returns (code: int)
      requires Ready(attachedTopic)
      modifies this, Touched(attachedTopic)
      ensures Ready(attachedTopic) && fresh(Touched(attachedTopic) - old(Touched(attachedTopic)))
      ensures !Serves(attachedTopic) ==> code == -1 && unchanged(this) && unchanged(old(Touched(attachedTopic)))
      ensures Serves(attachedTopic) ==>
                attachedTopic.chunk.Value() == old(AfterLoad(attachedTopic, fault))
      ensures Serves(attachedTopic) ==>
                C.Outcome(Place(), code)
                == C.Advance(attachedTopic.chunk.file.content, old(SightIn(attachedTopic, fault)), old(Place()), n)
    {
      if attachedTopic == null || attachedTopic.chunk == null {
        return -1;
      }
      code := attachedTopic.chunk.Load(fault);
      if code != 0 {
        return -1;
      }
      var next := Plus(readPointer, n);
      readPointer := if next > attachedTopic.chunk.size then attachedTopic.chunk.size else next;
      return 0;
    }

    /** `read_from_group` */
    method ReadFrom(n: size_t, fault: LoadFault) returns (out: Option<bytes>)
      requires Ready(attachedTopic)
      modifies this, Touched(attachedTopic)
      ensures Ready(attachedTopic) && fresh(Touched(attachedTopic) - old(Touched(attachedTopic)))
      ensures !Serves(attachedTopic) ==> out == None && unchanged(this) && unchanged(old(Touched(attachedTopic)))
      ensures Serves(attachedTopic) ==>
                attachedTopic.chunk.Value() == old(AfterLoad(attachedTopic, fault))
      ensures Serves(attachedTopic) ==>
                C.Outcome(Place(), out)
                == C.ReadFrom(attachedTopic.chunk.file.content, old(SightIn(attachedTopic, fault)), old(Place()), n)
    {
      if attachedTopic == null || attachedTopic.chunk == null {
        return None;
      }
      var code := attachedTopic.chunk.Load(fault);
      if code != 0 {
        return None;
      }
      var b := attachedTopic.chunk.Read(n, readPointer);
      if |b| > 0 {
        lastReadSize := |b|;
        readPointer := Plus(readPointer, |b|);
      }
      return Some(b);
    }

    /** `group_has_more_data` */
    method HasMore(fault: LoadFault) returns (more: bool)
      requires Ready(attachedTopic)
      modifies Touched(attachedTopic)
      ensures Ready(attachedTopic) && fresh(Touched(attachedTopic) - old(Touched(attachedTopic)))
      ensures !Serves(attachedTopic) ==> !more && unchanged(old(Touched(attachedTopic)))
      ensures Serves(attachedTopic) ==> attachedTopic.chunk.Value() == old(AfterLoad(attachedTopic, fault))
      ensures Serves(attachedTopic) ==>
                more == C.HasMore(attachedTopic.chunk.file.content, old(SightIn(attachedTopic, fault)), Place())
    {
      if attachedTopic == null || attachedTopic.chunk == null {
        return false;
      }
      var code := attachedTopic.chunk.Load(fault);
      if code != 0 {
        return false;
      }
      return readPointer < attachedTopic.chunk.size;
    }
  }

  /** `create_group`: no group without an id and a topic. */
  method CreateGroup(groupId: Option<string>, topic: Topic?, canAlloc: bool) returns (g: Group?)
    ensures g != null <==> groupId.Some? && groupId.value != "" && topic != null && canAlloc
    ensures g != null ==> fresh(g) && g.groupId == groupId.value && g.attachedTopic == topic
    ensures g != null ==> g.Place() == C.Cursor(0, 0)
  {
    if groupId == None || topic == null || groupId.value == "" || !canAlloc {
      return null;
    }
    g := new Group(groupId.value, topic);
  }
}
