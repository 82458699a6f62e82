/** What a group finds that stands before a `{}`: every new group on a topic made by `create_topic`, whose file begins
    with one (src/messaging/create_topic.c:101-108, src/messaging/manage_groups.c:60), and every group at the
    end of a log that gets one by mistake. */
module SeedPrefix {
  import opened Machine
  import opened ChunkStore
  import opened Framing
  import opened Cursors
  import opened FrameLaws

  /** The two characters `{` and `}`. */
  const SEED: bytes := [0x7B, 0x7D]

  /** The length that a seed and the header behind it spell when the next event has `n` bytes. */
  function Misread(n: nat): nat {
    32123 + 65536 * (n % 65536)
  }

  /** A log with a seed behind `front` and the frames of `es` behind the seed. */
  function Seeded(front: bytes, es: seq<Event>): bytes {
    front + (SEED + Frames(es))
  }

  lemma HeaderBytes(front: bytes, es: seq<Event>)
    requires es != []
    ensures
      var log, p := Seeded(front, es), |front|;
      && |log| >= p + 6 + |es[0]|
      && log[p..p + 4] == [0x7B, 0x7D, |es[0]| % 256, |es[0]| / 256 % 256]
  {
    var tail := SEED + Frames(es);
    assert tail == SEED + (EncodeU32(|es[0]|) + es[0] + Frames(es[1..]));
    assert Seeded(front, es)[|front|..] == tail;
  }

  /** The length read at the seed. */
  lemma MisreadHeader(front: bytes, es: seq<Event>)
    requires es != [] && |front| < HALF_MOD
    ensures |Seeded(front, es)| > |front| + 6
    ensures HeaderAt(Seeded(front, es), |front|) == Some(Misread(|es[0]|))
  {
    HeaderBytes(front, es);
    var n := |es[0]|;
    assert n % 65536 == n % 256 + 256 * (n / 256 % 256);
  }

  /** At a seed with at least one event behind it, `consume_packet` returns a packet exactly when the misread length is
      allowed and the log has grown to hold it. The packet is never the event behind the seed, and the
      pointer stops at the misread length. */
  lemma ConsumeAtSeed(front: bytes, es: seq<Event>, lastRead: size_t)
    requires es != [] && |Seeded(front, es)| < HALF_MOD
    ensures
      var o := Consume(Seeded(front, es), Full, Full, Cursor(|front|, lastRead), true);
      var n := Misread(|es[0]|);
      && (o.result.Some? <==> |es[0]| % 65536 < 160 && |front| + HEADER + n <= |Seeded(front, es)|)
      && (o.result.Some? ==> o.result.value.data != es[0] && o.cursor.pointer == |front| + HEADER + n)
      && (o.result == None ==> o.cursor == Cursor(|front|, lastRead))
  {
    MisreadHeader(front, es);
    MisreadIsAnother(|es[0]|);
  }

  lemma MisreadIsAnother(n: nat)
    ensures n % 65536 < 160 ==> Misread(n) != n
  {
    assert n == 65536 * (n / 65536) + n % 65536;
  }

  /** The same for a new group on a created topic. */
  lemma ConsumeFromZero(log: bytes, es: seq<Event>, lastRead: size_t)
    requires es != [] && log == SEED + Frames(es) && |log| < HALF_MOD
    ensures
      var o := Consume(log, Full, Full, Cursor(0, lastRead), true);
      && (o.result.Some? <==> |es[0]| % 65536 < 160 && HEADER + Misread(|es[0]|) <= |log|)
      && (o.result.Some? ==> o.result.value.data != es[0] && o.cursor.pointer == HEADER + Misread(|es[0]|))
  {
    assert Seeded([], es) == log;
    ConsumeAtSeed([], es, lastRead);
  }

  /** If the event behind the seed has 160 or more bytes modulo 65536, no later publish ever unblocks the group. */
  lemma StuckForever(front: bytes, es: seq<Event>, more: seq<Event>, lastRead: size_t)
    requires es != [] && |es[0]| % 65536 >= 160 && |Seeded(front, es + more)| < HALF_MOD
    ensures Consume(Seeded(front, es + more), Full, Full, Cursor(|front|, lastRead), true)
         == Outcome(Cursor(|front|, lastRead), None)
    ensures HasMore(Seeded(front, es + more), Full, Cursor(|front|, lastRead))
  {
    ConsumeAtSeed(front, es + more, lastRead);
  }

  /** Offset 2 is the boundary to start from: `set_group_pointer(group, 2)` and draining returns everything. */
  lemma DrainAfterSeed(es: seq<Event>, c: Cursor)
    requires |SEED + Frames(es)| < HALF_MOD
    ensures
      var log := SEED + Frames(es);
      Drain(log, SetPointer(log, Full, c, 2).cursor) == es
  {
    var log := SEED + Frames(es);
    assert log[2..] == Frames(es);
    BoundaryEnds(log, 2, es);
    DrainInvertsFrames(log, 2, es, 0, SetPointer(log, Full, c, 2).cursor);
    assert es[0..] == es;
  }
}
