/** The read pointer under every cursor operation, with 64-bit wrap-around and failing loads. */
module PointerBounds {
  import opened Machine
  import opened ChunkStore
  import opened Framing
  import opened Cursors
  import FrameLaws

  datatype Op =
    | Grow(b: bytes)
    | DoConsume(s1: Sight, s2: Sight, canAlloc: bool)
    | DoConsumeSized(n: size_t, s: Sight, canAlloc: bool)
    | DoAckPacket(offset: size_t, n32: uint32, s: Sight)
    | DoAckByOffset(offset: size_t, n: size_t, s: Sight)
    | DoAckBySize(n: size_t, s: Sight)
    | DoAckBatch(count: nat, s: Sight)
    | DoAckBatchBySize(sizes: seq<size_t>, s: Sight)
    | DoSet(offset: size_t, s: Sight)
    | DoAdvance(n: size_t, s: Sight)
    | DoRead(n: size_t, s: Sight)

  /** The file only ever grows. */
  function FileAfter(file: bytes, op: Op): bytes {
    if op.Grow? then file + op.b else file
  }

  function CursorAfter(file: bytes, c: Cursor, op: Op): Cursor {
    match op
    case Grow(_) => c
    case DoConsume(s1, s2, canAlloc) => Consume(file, s1, s2, c, canAlloc).cursor
    case DoConsumeSized(n, s, canAlloc) => ConsumeSized(file, s, c, n, canAlloc).cursor
    case DoAckPacket(offset, n, s) => AckPacket(file, s, c, offset, n).cursor
    case DoAckByOffset(offset, n, s) => AckByOffset(file, s, c, offset, n).cursor
    case DoAckBySize(n, s) => AckBySize(file, s, c, n).cursor
    case DoAckBatch(count, s) => AckBatch(file, s, c, count).cursor
    case DoAckBatchBySize(sizes, s) => AckBatchBySize(file, s, c, sizes).cursor
    case DoSet(offset, s) => SetPointer(file, s, c, offset).cursor
    case DoAdvance(n, s) => Advance(file, s, c, n).cursor
    case DoRead(n, s) => ReadFrom(file, s, c, n).cursor
  }

  function FileRun(file: bytes, ops: seq<Op>): bytes
    decreases |ops|
  {
    if ops == [] then file else FileRun(FileAfter(file, ops[0]), ops[1..])
  }

  function CursorRun(file: bytes, c: Cursor, ops: seq<Op>): Cursor
    decreases |ops|
  {
    if ops == [] then c else CursorRun(FileAfter(file, ops[0]), CursorAfter(file, c, ops[0]), ops[1..])
  }

  lemma {:induction false} WalkStaysInside(ram: bytes, offset: size_t, n: nat)
    ensures
      var w := Walk(ram, offset, n);
      && (w.frames > 0 ==> w.offset <= |ram|)
      && (|ram| < HALF_MOD && offset <= |ram| ==> offset <= w.offset)
    decreases n
  {
    var next := NextFrame(ram, offset);
    if n > 0 && next.Some? {
      WalkStaysInside(ram, next.value, n - 1);
    }
  }

  lemma StepStaysInside(file: bytes, c: Cursor, op: Op)
    requires c.pointer <= |file|
    ensures CursorAfter(file, c, op).pointer <= |FileAfter(file, op)|
  {
    if op.DoAckBatch? {
      WalkStaysInside(See(file, op.s), c.pointer, op.count);
    }
  }

  /** Over every run, whatever wraps and whatever fails, the read pointer stays inside the file. */
  lemma {:induction false} PointerStaysInside(file: bytes, c: Cursor, ops: seq<Op>)
    requires c.pointer <= |file|
    ensures CursorRun(file, c, ops).pointer <= |FileRun(file, ops)|
    decreases |ops|
  {
    if ops != [] {
      StepStaysInside(file, c, ops[0]);
      PointerStaysInside(FileAfter(file, ops[0]), CursorAfter(file, c, ops[0]), ops[1..]);
    }
  }

  /** Adding `total` wraps and still lands inside what the load showed. */
  predicate WrapsInside(file: bytes, s: Sight, c: Cursor, total: size_t) {
    s != Unread && c.pointer + total >= SIZE_MOD && c.pointer + total - SIZE_MOD <= |See(file, s)|
  }

  /** The inputs on which an operation other than `set_group_pointer` turns the pointer back. */
  predicate TurnsBack(file: bytes, c: Cursor, op: Op) {
    match op
    case DoAckBySize(n, s) => n != 0 && WrapsInside(file, s, c, Plus(HEADER, n))
    case DoAckBatchBySize(sizes, s) => TotalOf(sizes).Some? && WrapsInside(file, s, c, TotalOf(sizes).value)
    case DoAdvance(n, s) => s != Unread && (c.pointer + n >= SIZE_MOD || (s == Blind && c.pointer > 0))
    case _ => false
  }

  /** Consumes, reads, `ack_packet`, `ack_packet_by_offset` and `ack_packet_batch` never move the pointer
      back. The size-sum acks do so exactly when the sum wraps to an offset inside the file, and
      `advance_group_pointer` exactly when its sum wraps or its load could not open the file. */
  lemma MovesBackExactly(file: bytes, c: Cursor, op: Op)
    requires c.pointer <= |file| < HALF_MOD && !op.DoSet?
    ensures CursorAfter(file, c, op).pointer < c.pointer <==> TurnsBack(file, c, op)
  {
    if op.DoAckBatch? {
      WalkStaysInside(See(file, op.s), c.pointer, op.count);
    }
  }

  /** A client whose `ACK` names a negative size, which `atoi` turns into a huge `size_t`, rewinds its group. */
  lemma NegativeAckRewinds(file: bytes, s2: Sight, c: Cursor, back: nat)
    requires c.pointer <= |file| < HALF_MOD && 5 <= back <= c.pointer + HEADER
    ensures
      var size: size_t := SIZE_MOD - back;
      AckCommand(file, Full, s2, c, Some(size))
      == Outcome(Cursor(c.pointer + HEADER - back, SIZE_MOD + HEADER - back), 0)
  {
  }

  /** Reading `m` bytes and then `n` gives the bytes, and the place, that reading `m + n` gives. */
  lemma ReadsCompose(file: bytes, c: Cursor, m: size_t, n: size_t)
    requires |file| < HALF_MOD && m + n < SIZE_MOD
    ensures
      var first := ReadFrom(file, Full, c, m);
      var second := ReadFrom(file, Full, first.cursor, n);
      var joint := ReadFrom(file, Full, c, m + n);
      && first.result.Some? && second.result.Some?
      && joint.result == Some(first.result.value + second.result.value)
      && joint.cursor.pointer == second.cursor.pointer
  {
    var p := c.pointer;
    if p < |file| {
      var a, b := p + Min(m, |file| - p), p + Min(m + n, |file| - p);
      assert ReadFrom(file, Full, c, m).result == Some(file[p..a]);
      assert ReadFrom(file, Full, c, m + n).result == Some(file[p..b]);
      assert file[p..a] + file[a..b] == file[p..b];
      assert ReadFrom(file, Full, ReadFrom(file, Full, c, m).cursor, n).result == Some(file[a..b]);
    } else {
      var none: bytes := [];
      assert none + none == none;
    }
  }

  /** Short of a wrap, two advances in a row go where one of the joint length goes, and never past the end. */
  lemma AdvancesCompose(file: bytes, c: Cursor, m: size_t, n: size_t)
    requires c.pointer <= |file| && c.pointer + m + n < SIZE_MOD
    ensures Advance(file, Full, Advance(file, Full, c, m).cursor, n).cursor == Advance(file, Full, c, m + n).cursor
    ensures Advance(file, Full, c, m).cursor.pointer == Min(c.pointer + m, |file|)
  {
  }

  /** Setting the pointer and reading gives the bytes of the file from there on, as many as are there, and stops behind
      them; a place past the end reads as the end. */
  lemma SetThenRead(file: bytes, c: Cursor, offset: size_t, n: size_t)
    requires |file| < HALF_MOD
    ensures
      var there := SetPointer(file, Full, c, offset);
      var from := Min(offset, |file|);
      var to := if n < |file| - from then from + n else |file|;
      var r := ReadFrom(file, Full, there.cursor, n);
      && there.result == 0 && (HasMore(file, Full, there.cursor) <==> offset < |file|)
      && r.result == Some(file[from..to]) && r.cursor.pointer == to
      && r.cursor.lastRead == (if from < to then to - from else c.lastRead)
  {
    var from := Min(offset, |file|);
    var to := if n < |file| - from then from + n else |file|;
    assert ReadRam(file, n, from) == file[from..to];
    assert |file[from..to]| == to - from;
  }

  /** `consume_packet_with_size` returns the `n` raw bytes at the pointer and moves behind them if and only if `n` is
      allowed, the file holds as many from there on and memory is there; otherwise it does nothing. */
  lemma ConsumeSizedExactly(file: bytes, c: Cursor, n: size_t, canAlloc: bool)
    requires |file| < HALF_MOD
    ensures
      var o := ConsumeSized(file, Full, c, n, canAlloc);
      if 1 <= n <= 10485760 && c.pointer + n <= |file| && canAlloc
      then && o.result.Some? && o.result.value.data == file[c.pointer..c.pointer + n]
           && o.result.value.size == n && o.result.value.offset == c.pointer
           && o.cursor == Cursor(c.pointer + n, n)
      else o == Outcome(c, None)
  {
  }

  /** On a framed log it does not know frames: with the size of a whole frame it returns header and payload, and goes
      where `consume_packet` goes. */
  lemma ConsumeSizedTakesFrame(file: bytes, base: nat, es: seq<Event>, i: nat, c: Cursor)
    requires FrameLaws.At(file, base, es, i, c) && i < |es| && HEADER + |es[i]| <= MAX_EVENT
    ensures
      var o := ConsumeSized(file, Full, c, HEADER + |es[i]|, true);
      && o.result.Some? && o.result.value.data == Frame(es[i])
      && o.cursor == Consume(file, Full, Full, c, true).cursor
  {
    FrameAt(file, base, es, i);
    FrameLaws.ConsumeAtBoundary(file, base, es, i, c, Full, Full, true);
    var p := Boundary(base, es, i);
    assert file[p..p + HEADER + |es[i]|] == file[p..p + HEADER] + file[p + HEADER..p + HEADER + |es[i]|];
    ConsumeSizedExactly(file, c, HEADER + |es[i]|, true);
  }

  /** An operation whose load fails leaves the cursor where it is and reports failure. */
  lemma FailedLoadMovesNothing(file: bytes, c: Cursor, s2: Sight, canAlloc: bool, offset: size_t, n: size_t, n32: uint32,
                               sizes: seq<size_t>)
    ensures Consume(file, Unread, s2, c, canAlloc) == Outcome(c, None)
    ensures Consume(file, Full, Unread, c, canAlloc) == Outcome(c, None)
    ensures ConsumeSized(file, Unread, c, n, canAlloc) == Outcome(c, None)
    ensures AckPacket(file, Unread, c, offset, n32) == Outcome(c, -1)
    ensures AckByOffset(file, Unread, c, offset, n) == AckBySize(file, Unread, c, n) == Outcome(c, -1)
    ensures AckBatch(file, Unread, c, n) == AckBatchBySize(file, Unread, c, sizes) == Outcome(c, -1)
    ensures SetPointer(file, Unread, c, offset) == Advance(file, Unread, c, n) == Outcome(c, -1)
    ensures ReadFrom(file, Unread, c, n) == Outcome(c, None) && !HasMore(file, Unread, c)
  {
  }

  lemma {:induction false} ZeroSizeHasNoTotal(sizes: seq<size_t>)
    ensures TotalOf(sizes) == None <==> 0 in sizes
  {
    if sizes != [] {
      ZeroSizeHasNoTotal(sizes[..|sizes| - 1]);
      assert sizes == sizes[..|sizes| - 1] + [sizes[|sizes| - 1]];
    }
  }

  /** An ack of nothing, or with a zero size anywhere, is refused, whatever the load shows. */
  lemma EmptyAcksAreRefused(file: bytes, s: Sight, c: Cursor, offset: size_t, sizes: seq<size_t>)
    ensures AckBatch(file, s, c, 0) == Outcome(c, -1)
    ensures AckBySize(file, s, c, 0) == AckByOffset(file, s, c, offset, 0) == Outcome(c, -1)
    ensures sizes == [] || 0 in sizes ==> AckBatchBySize(file, s, c, sizes) == Outcome(c, -1)
  {
    ZeroSizeHasNoTotal(sizes);
  }

  /** To every operation a file that cannot be opened looks like an empty one. */
  lemma UnopenedLooksEmpty(file: bytes, c: Cursor, op: Op)
    ensures Consume(file, Blind, Blind, c, true) == Consume([], Full, Full, c, true)
    ensures HasMore(file, Blind, c) == HasMore([], Full, c)
    ensures match op
            case Grow(_) => true
            case DoConsume(_, s2, canAlloc) => Consume(file, Blind, s2, c, canAlloc) == Outcome(c, None)
            case DoConsumeSized(n, _, canAlloc) => ConsumeSized(file, Blind, c, n, canAlloc) == Outcome(c, None)
            case DoAckPacket(offset, n, _) => AckPacket(file, Blind, c, offset, n) == AckPacket([], Full, c, offset, n)
            case DoAckByOffset(offset, n, _) => AckByOffset(file, Blind, c, offset, n) == AckByOffset([], Full, c, offset, n)
            case DoAckBySize(n, _) => AckBySize(file, Blind, c, n) == AckBySize([], Full, c, n)
            case DoAckBatch(count, _) => AckBatch(file, Blind, c, count) == AckBatch([], Full, c, count)
            case DoAckBatchBySize(sizes, _) => AckBatchBySize(file, Blind, c, sizes) == AckBatchBySize([], Full, c, sizes)
            case DoSet(offset, _) => SetPointer(file, Blind, c, offset) == Outcome(c.(pointer := 0), 0)
            case DoAdvance(n, _) => Advance(file, Blind, c, n) == Outcome(c.(pointer := 0), 0)
            case DoRead(n, _) => ReadFrom(file, Blind, c, n) == Outcome(c, Some([]))
  {
  }
}
