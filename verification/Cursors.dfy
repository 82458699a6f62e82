/** What each consume, ack and pointer operation does to a group's cursor, as functions of the file
    (src/messaging/consume_packet.c, ack_packet.c and manage_groups.c). */
module Cursors {
  import opened Machine
  import opened ChunkStore
  import opened Framing

  /** `read_pointer` and `last_read_size` of a group. */
  datatype Cursor = Cursor(pointer: size_t, lastRead: size_t)

  /** A packet's data is never empty and never over the limit: every reader checks that first. */
  datatype Packet = Packet(size: uint32, data: Event, offset: size_t)

  datatype Outcome<T> = Outcome(cursor: Cursor, result: T)

  /** `ack_packet_batch` and the readers: the length field at `offset`, if it lies inside the buffer. */
  function HeaderAt(ram: bytes, offset: size_t): Option<uint32> {
    if Plus(offset, HEADER) > |ram| then None
    else if |ReadRam(ram, HEADER, offset)| != HEADER then None
    else Some(DecodeU32(ReadRam(ram, HEADER, offset)))
  }

  /** The first load of `consume_packet`: whether it goes on past its end-of-data check. */
  predicate MayConsume(file: bytes, s: Sight, c: Cursor) {
    s != Unread && c.pointer < |See(file, s)|
  }

  /** The copy of a payload of `n` bytes and the move behind it. */
  function Take(ram: bytes, c: Cursor, n: uint32, canAlloc: bool): Outcome<Option<Packet>>
    requires 1 <= n <= MAX_EVENT
  {
    var body := ReadRam(ram, n, Plus(c.pointer, HEADER));
    if Plus(Plus(c.pointer, HEADER), n) > |ram| || !canAlloc || |body| != n then Outcome(c, None)
    else Outcome(Cursor(Plus(c.pointer, HEADER + n), HEADER + n), Some(Packet(n, body, c.pointer)))
  }

  /** The rest of `consume_packet`, from the second load on. */
  function FinishConsume(file: bytes, s: Sight, c: Cursor, canAlloc: bool): Outcome<Option<Packet>> {
    if s == Unread then Outcome(c, None)
    else
      var ram := See(file, s);
      match HeaderAt(ram, c.pointer)
      case None => Outcome(c, None)
      case Some(n) =>
        if n == 0 || n > MAX_EVENT then Outcome(c, None)
        else Take(ram, c, n, canAlloc)
  }

  /** `consume_packet` on a file that does not change between its two loads. */
  function Consume(file: bytes, s1: Sight, s2: Sight, c: Cursor, canAlloc: bool): Outcome<Option<Packet>> {
    if MayConsume(file, s1, c) then FinishConsume(file, s2, c, canAlloc) else Outcome(c, None)
  }

  /** The chunk after the loads of `consume_packet` on a handle. */
  function ViewAfterConsume(file: bytes, v: View, c: Cursor, fault1: LoadFault, fault2: LoadFault): View {
    var once := Loaded(v, file, fault1);
    if MayConsume(file, SightOf(v, file, fault1), c) then Loaded(once, file, fault2) else once
  }

  /** `consume_packet` on a handle, with the faults of its two loads. */
  function ConsumeFrom(file: bytes, v: View, c: Cursor, fault1: LoadFault, fault2: LoadFault, canAlloc: bool)
    : Outcome<Option<Packet>>
  {
    Consume(file, SightOf(v, file, fault1), SightOf(Loaded(v, file, fault1), file, fault2), c, canAlloc)
  }

  /** `consume_packet_with_size`: reads raw bytes and ignores frames. */
  function ConsumeSized(file: bytes, s: Sight, c: Cursor, n: size_t, canAlloc: bool): Outcome<Option<Packet>> {
    var ram := See(file, s);
    if n == 0 || n > MAX_EVENT || s == Unread || Plus(c.pointer, n) > |ram| || !canAlloc then Outcome(c, None)
    else
      var body := ReadRam(ram, n, c.pointer);
      if |body| != n then Outcome(c, None)
      else Outcome(Cursor(Plus(c.pointer, n), n), Some(Packet(n, body, c.pointer)))
  }

  /** Moves forward to `end` when that lies inside the buffer. */
  function AckUpTo(ram: bytes, c: Cursor, end: size_t): Outcome<int> {
    if end > |ram| then Outcome(c, -1)
    else Outcome(if c.pointer < end then c.(pointer := end) else c, 0)
  }

  /** `ack_packet` */
  function AckPacket(file: bytes, s: Sight, c: Cursor, offset: size_t, n: uint32): Outcome<int> {
    if s == Unread then Outcome(c, -1)
    else AckUpTo(See(file, s), c, Plus(offset, HEADER + n))
  }

  /** `ack_packet_by_offset` */
  function AckByOffset(file: bytes, s: Sight, c: Cursor, offset: size_t, n: size_t): Outcome<int> {
    if n == 0 || s == Unread then Outcome(c, -1)
    else AckUpTo(See(file, s), c, Plus(offset, Plus(HEADER, n)))
  }

  /** Adds `total` to the pointer when the (wrapped) sum lies inside the buffer. */
  function AckTotal(ram: bytes, c: Cursor, total: size_t): Outcome<int> {
    if Plus(c.pointer, total) > |ram| then Outcome(c, -1)
    else Outcome(Cursor(Plus(c.pointer, total), total), 0)
  }

  /** `ack_packet_by_size` */
  function AckBySize(file: bytes, s: Sight, c: Cursor, n: size_t): Outcome<int> {
    if n == 0 || s == Unread then Outcome(c, -1)
    else AckTotal(See(file, s), c, Plus(HEADER, n))
  }

  /** The wrapped sum of the frame sizes, `None` when one of the sizes is zero. */
  function TotalOf(sizes: seq<size_t>): Option<size_t> {
    if sizes == [] then Some(0)
    else
      match TotalOf(sizes[..|sizes| - 1])
      case None => None
      case Some(t) =>
        if sizes[|sizes| - 1] == 0 then None
        else Some(Plus(t, Plus(HEADER, sizes[|sizes| - 1])))
  }

  /** `ack_packet_batch_by_size` */
  function AckBatchBySize(file: bytes, s: Sight, c: Cursor, sizes: seq<size_t>): Outcome<int> {
    if sizes == [] || s == Unread || TotalOf(sizes) == None then Outcome(c, -1)
    else AckTotal(See(file, s), c, TotalOf(sizes).value)
  }

  /** The end of the frame at `offset`, if the buffer holds it whole. */
  function NextFrame(ram: bytes, offset: size_t): Option<size_t> {
    match HeaderAt(ram, offset)
    case None => None
    case Some(n) => if Plus(offset, HEADER + n) > |ram| then None else Some(Plus(offset, HEADER + n))
  }

  /** How far the loop of `ack_packet_batch` gets in `count` passes. */
  datatype Reach = Reach(offset: size_t, frames: nat)

  function Further(w: Reach, passed: nat): Reach {
    w.(frames := w.frames + passed)
  }

  function Walk(ram: bytes, offset: size_t, count: nat): (r: Reach)
    ensures r.frames <= count
    ensures r.frames == 0 ==> r.offset == offset
    decreases count
  {
    if count == 0 then Reach(offset, 0)
    else
      match NextFrame(ram, offset)
      case None => Reach(offset, 0)
      case Some(next) => Further(Walk(ram, next, count - 1), 1)
  }

  function Minus(a: size_t, b: size_t): size_t {
    if a >= b then a - b else a - b + SIZE_MOD
  }

  /** `ack_packet_batch`: a partial walk still moves the pointer. */
  function AckBatch(file: bytes, s: Sight, c: Cursor, count: nat): Outcome<int> {
    if count == 0 || s == Unread then Outcome(c, -1)
    else
      var w := Walk(See(file, s), c.pointer, count);
      Outcome(if w.frames > 0 then Cursor(w.offset, Minus(w.offset, c.pointer)) else c, if w.frames == count then 0 else -1)
  }

  /** `set_group_pointer` */
  function SetPointer(file: bytes, s: Sight, c: Cursor, offset: size_t): Outcome<int> {
    if s == Unread then Outcome(c, -1)
    else Outcome(c.(pointer := Min(offset, |See(file, s)|)), 0)
  }

  /** `advance_group_pointer` */
  function Advance(file: bytes, s: Sight, c: Cursor, n: size_t): Outcome<int> {
    if s == Unread then Outcome(c, -1)
    else Outcome(c.(pointer := Min(Plus(c.pointer, n), |See(file, s)|)), 0)
  }

  /** `read_from_group`: `None` stands for -1. */
  function ReadFrom(file: bytes, s: Sight, c: Cursor, n: size_t): Outcome<Option<bytes>> {
    if s == Unread then Outcome(c, None)
    else
      var out := ReadRam(See(file, s), n, c.pointer);
      Outcome(if |out| > 0 then Cursor(Plus(c.pointer, |out|), |out|) else c, Some(out))
  }

  /** `group_has_more_data` */
  predicate HasMore(file: bytes, s: Sight, c: Cursor) {
    s != Unread && c.pointer < |See(file, s)|
  }

  /** The socket `ACK`: a size in the command is tried first, then one frame is stepped over
      (src/socket/server_event_handler.c:138-162). */
  function AckCommand(file: bytes, s1: Sight, s2: Sight, c: Cursor, size: Option<size_t>): Outcome<int> {
    if size.Some? && AckBySize(file, s1, c, size.value).result == 0
    then AckBySize(file, s1, c, size.value)
    else AckBatch(file, s2, c, 1)
  }
}
