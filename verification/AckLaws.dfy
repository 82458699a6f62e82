/** The acks that only move forward: `ack_packet` and `ack_packet_by_offset` (src/messaging/ack_packet.c:8-37, 67-96). */
module AckLaws {
  import opened Machine
  import opened ChunkStore
  import opened Framing
  import opened Cursors

  datatype Ack = OfPacket(offset: size_t, n: uint32) | ByOffset(offset: size_t, size: size_t)

  function Apply(file: bytes, c: Cursor, a: Ack): Outcome<int> {
    match a
    case OfPacket(offset, n) => AckPacket(file, Full, c, offset, n)
    case ByOffset(offset, n) => AckByOffset(file, Full, c, offset, n)
  }

  function ApplyAll(file: bytes, c: Cursor, acks: seq<Ack>): Cursor {
    if acks == [] then c else Apply(file, ApplyAll(file, c, acks[..|acks| - 1]), acks[|acks| - 1]).cursor
  }

  /** The end of the packet an ack names, in 64-bit arithmetic. */
  function EndOf(a: Ack): size_t {
    match a
    case OfPacket(offset, n) => Plus(offset, HEADER + n)
    case ByOffset(offset, n) => Plus(offset, Plus(HEADER, n))
  }

  predicate Accepted(file: bytes, a: Ack) {
    EndOf(a) <= |file| && (a.ByOffset? ==> a.size > 0)
  }

  /** `top` is the largest of `low` and the ends of the accepted acks. */
  ghost predicate IsFurthest(file: bytes, low: size_t, acks: seq<Ack>, top: size_t) {
    && low <= top
    && (forall a :: a in acks && Accepted(file, a) ==> EndOf(a) <= top)
    && (top == low || exists a :: a in acks && Accepted(file, a) && EndOf(a) == top)
  }

  /** After any acks in any order, with repetitions, the pointer is the maximum of where it was and of
      the accepted packet ends. This holds even when the sums wrap; `last_read_size` never changes. */
  lemma {:induction false} AcksTakeMaximum(file: bytes, c: Cursor, acks: seq<Ack>)
    ensures IsFurthest(file, c.pointer, acks, ApplyAll(file, c, acks).pointer)
    ensures ApplyAll(file, c, acks).lastRead == c.lastRead
  {
    if acks != [] {
      var front, last := acks[..|acks| - 1], acks[|acks| - 1];
      AcksTakeMaximum(file, c, front);
      assert acks == front + [last];
      assert forall a :: a in acks <==> a in front || a == last;
      var before := ApplyAll(file, c, front).pointer;
      var after := ApplyAll(file, c, acks).pointer;
      assert after == if Accepted(file, last) && before < EndOf(last) then EndOf(last) else before;
      if after == EndOf(last) && Accepted(file, last) {
        assert last in acks;
      } else if after != c.pointer {
        var a :| a in front && Accepted(file, a) && EndOf(a) == before;
        assert a in acks;
      }
    }
  }

  /** Two ack runs with the same members end alike: acks commute and are idempotent. */
  lemma AckOrderIsIrrelevant(file: bytes, c: Cursor, a: seq<Ack>, b: seq<Ack>)
    requires forall x :: x in a <==> x in b
    ensures ApplyAll(file, c, a) == ApplyAll(file, c, b)
  {
    AcksTakeMaximum(file, c, a);
    AcksTakeMaximum(file, c, b);
  }

  /** Acknowledging the packet that was just consumed changes nothing and succeeds. */
  lemma AckAfterConsumeIsIdle(file: bytes, c: Cursor, canAlloc: bool)
    requires |file| < HALF_MOD
    requires Consume(file, Full, Full, c, canAlloc).result.Some?
    ensures
      var o := Consume(file, Full, Full, c, canAlloc);
      var p := o.result.value;
      && AckPacket(file, Full, o.cursor, p.offset, p.size) == Outcome(o.cursor, 0)
      && AckByOffset(file, Full, o.cursor, p.offset, p.size) == Outcome(o.cursor, 0)
  {
  }
}
