/** Readers on a framed log: reading inverts publishing, and every reader moves by whole frames. */
module FrameLaws {
  import opened Machine
  import opened ChunkStore
  import opened Framing
  import opened Cursors

  /** The cursor stands at boundary `i` of a framed log that `ftell` can measure. */
  ghost predicate At(file: bytes, base: nat, es: seq<Event>, i: nat, c: Cursor) {
    && Framed(file, base, es) && |file| < HALF_MOD
    && i <= |es| && c.pointer == Boundary(base, es, i)
  }

  lemma HeaderAtFrame(file: bytes, base: nat, es: seq<Event>, i: nat, c: Cursor)
    requires At(file, base, es, i, c)
    ensures HeaderAt(file, c.pointer) == if i < |es| then Some(|es[i]|) else None
    ensures i < |es| ==> c.pointer + HEADER + |es[i]| == Boundary(base, es, i + 1) <= |file|
    ensures i < |es| ==> ReadRam(file, |es[i]|, c.pointer + HEADER) == es[i]
    ensures i == |es| ==> c.pointer == |file|
  {
    BoundaryEnds(file, base, es);
    if i < |es| {
      FrameAt(file, base, es, i);
      DecodeEncode(|es[i]|);
    }
  }

  /** The packet that `consume_packet` should hand out at boundary `i`, and where it should stop. */
  function Delivery(base: nat, es: seq<Event>, i: nat, c: Cursor): Outcome<Option<Packet>>
    requires i < |es| && Boundary(base, es, i + 1) < SIZE_MOD
  {
    Outcome(Cursor(Boundary(base, es, i + 1), HEADER + |es[i]|), Some(Packet(|es[i]|, es[i], c.pointer)))
  }

  /** From its second load on, `consume_packet` delivers event `i` and stops at boundary `i + 1`
      exactly when there is such an event, the load shows the file and memory is available;
      otherwise it does nothing. */
  lemma FinishAtBoundary(file: bytes, base: nat, es: seq<Event>, i: nat, c: Cursor, s: Sight, canAlloc: bool)
    requires At(file, base, es, i, c)
    ensures i < |es| ==> Boundary(base, es, i + 1) < SIZE_MOD
    ensures FinishConsume(file, s, c, canAlloc) ==
            if i < |es| && s == Full && canAlloc then Delivery(base, es, i, c) else Outcome(c, None)
  {
    HeaderAtFrame(file, base, es, i, c);
  }

  /** The same for the whole of `consume_packet`, whatever its two loads see. */
  lemma ConsumeAtBoundary(file: bytes, base: nat, es: seq<Event>, i: nat, c: Cursor,
                          s1: Sight, s2: Sight, canAlloc: bool)
    requires At(file, base, es, i, c)
    ensures i < |es| ==> Boundary(base, es, i + 1) < SIZE_MOD
    ensures Consume(file, s1, s2, c, canAlloc) ==
            if i < |es| && s1 == Full && s2 == Full && canAlloc then Delivery(base, es, i, c) else Outcome(c, None)
  {
    HeaderAtFrame(file, base, es, i, c);
    FinishAtBoundary(file, base, es, i, c, s2, canAlloc);
  }

  /** On a framed log `group_has_more_data` tells exactly whether the next `consume_packet` succeeds. */
  lemma HasMoreForetellsConsume(file: bytes, base: nat, es: seq<Event>, i: nat, c: Cursor)
    requires At(file, base, es, i, c)
    ensures HasMore(file, Full, c) <==> Consume(file, Full, Full, c, true).result.Some?
    ensures HasMore(file, Full, c) <==> i < |es|
  {
    ConsumeAtBoundary(file, base, es, i, c, Full, Full, true);
    HeaderAtFrame(file, base, es, i, c);
  }

  /** The payloads that repeated `consume_packet` calls return until the first NULL. */
  function Drain(file: bytes, c: Cursor): seq<bytes>
    decreases |file| - c.pointer
  {
    var o := Consume(file, Full, Full, c, true);
    if o.result == None || o.cursor.pointer <= c.pointer then [] else [o.result.value.data] + Drain(file, o.cursor)
  }

  lemma DrainStep(file: bytes, base: nat, es: seq<Event>, i: nat, c: Cursor)
    requires At(file, base, es, i, c)
    ensures i == |es| ==> Drain(file, c) == []
    ensures i < |es| ==>
              && Boundary(base, es, i + 1) < SIZE_MOD
              && At(file, base, es, i + 1, Delivery(base, es, i, c).cursor)
              && Drain(file, c) == [es[i]] + Drain(file, Delivery(base, es, i, c).cursor)
  {
    ConsumeAtBoundary(file, base, es, i, c, Full, Full, true);
    if i < |es| {
      BoundaryStep(base, es, i);
    }
  }

  /** Reading inverts writing: draining from boundary `i` returns the events from `i` on. */
  lemma {:induction false} DrainInvertsFrames(file: bytes, base: nat, es: seq<Event>, i: nat, c: Cursor)
    requires At(file, base, es, i, c)
    ensures Drain(file, c) == es[i..]
    decreases |es| - i
  {
    DrainStep(file, base, es, i, c);
    if i < |es| {
      var next := Delivery(base, es, i, c).cursor;
      DrainInvertsFrames(file, base, es, i + 1, next);
      assert es[i..] == [es[i]] + es[i + 1..];
    } else {
      assert es[i..] == [];
    }
  }

  /** A log is framed in one way only. */
  lemma FramingIsUnique(file: bytes, base: nat, es: seq<Event>, fs: seq<Event>)
    requires Framed(file, base, es) && Framed(file, base, fs) && |file| < HALF_MOD
    ensures es == fs
  {
    var c := Cursor(base, 0);
    BoundaryEnds(file, base, es);
    BoundaryEnds(file, base, fs);
    DrainInvertsFrames(file, base, es, 0, c);
    DrainInvertsFrames(file, base, fs, 0, c);
  }

  lemma NextAtBoundary(file: bytes, base: nat, es: seq<Event>, i: nat, c: Cursor)
    requires At(file, base, es, i, c)
    ensures i == |es| ==> NextFrame(file, c.pointer) == None
    ensures i < |es| ==>
              Boundary(base, es, i + 1) < HALF_MOD && NextFrame(file, c.pointer) == Some(Boundary(base, es, i + 1))
  {
    HeaderAtFrame(file, base, es, i, c);
  }

  /** The loop of `ack_packet_batch` on a framed log. */
  lemma {:induction false} WalkFrames(file: bytes, base: nat, es: seq<Event>, i: nat, c: Cursor, n: nat)
    requires At(file, base, es, i, c)
    ensures
      var w := Walk(file, c.pointer, n);
      && w.frames == Min(n, |es| - i)
      && w.offset == Boundary(base, es, i + w.frames)
    decreases n
  {
    NextAtBoundary(file, base, es, i, c);
    if n > 0 && i < |es| {
      WalkFrames(file, base, es, i + 1, Cursor(Boundary(base, es, i + 1), 0), n - 1);
    }
  }

  /** `ack_packet_batch(n)` moves from boundary `i` to boundary min(i + n, N) and returns 0 exactly when
      `n` frames were there; when fewer were there it moves all the same. */
  lemma BatchAtBoundary(file: bytes, base: nat, es: seq<Event>, i: nat, c: Cursor, n: nat)
    requires At(file, base, es, i, c) && n > 0
    ensures
      var o := AckBatch(file, Full, c, n);
      var j := Min(i + n, |es|);
      && o.cursor.pointer == Boundary(base, es, j)
      && (o.result == 0 <==> i + n <= |es|)
      && o.cursor.lastRead == (if i < j then Boundary(base, es, j) - c.pointer else c.lastRead)
  {
    WalkFrames(file, base, es, i, c, n);
    HeaderAtFrame(file, base, es, i, c);
    BoundaryOrder(base, es, i, Min(i + n, |es|));
  }

  /** An acknowledgement that sees nothing, or no file, moves nothing. */
  lemma BatchUnseen(file: bytes, s: Sight, c: Cursor, n: nat)
    requires s != Full && c.pointer + HEADER < SIZE_MOD
    ensures AckBatch(file, s, c, n) == Outcome(c, -1)
  {
  }

  /** The walk of `m + n` passes is the walk of `m` followed by the walk of `n`. */
  ghost predicate WalkSplits(ram: bytes, offset: size_t, m: nat, n: nat) {
    var first := Walk(ram, offset, m);
    var second := Walk(ram, first.offset, n);
    && Walk(ram, offset, m + n) == Further(second, first.frames)
    && (first.frames < m ==> second.frames == 0)
  }

  lemma {:induction false} WalkComposes(ram: bytes, offset: size_t, m: nat, n: nat)
    ensures WalkSplits(ram, offset, m, n)
    decreases m
  {
    var next := NextFrame(ram, offset);
    if m > 0 && next.Some? {
      WalkComposes(ram, next.value, m - 1, n);
      assert m + n - 1 == m - 1 + n;
    }
  }

  /** On any file at all, framed or not, two batch acknowledgements in a row leave the pointer where one
      of the joint size leaves it, and both succeed exactly when the joint one does. */
  lemma BatchesCompose(file: bytes, c: Cursor, m: nat, n: nat)
    requires m > 0 && n > 0
    ensures
      var first := AckBatch(file, Full, c, m);
      var second := AckBatch(file, Full, first.cursor, n);
      var joint := AckBatch(file, Full, c, m + n);
      && second.cursor.pointer == joint.cursor.pointer
      && (joint.result == 0 <==> first.result == 0 && second.result == 0)
  {
    WalkComposes(file, c.pointer, m, n);
  }

  function ConsumeTimes(file: bytes, c: Cursor, n: nat): Cursor
    decreases n
  {
    if n == 0 then c else ConsumeTimes(file, Consume(file, Full, Full, c, true).cursor, n - 1)
  }

  lemma ConsumeTimesStep(file: bytes, base: nat, es: seq<Event>, i: nat, c: Cursor, n: nat) returns (next: Cursor)
    requires At(file, base, es, i, c) && n > 0
    ensures ConsumeTimes(file, c, n) == ConsumeTimes(file, next, n - 1)
    ensures At(file, base, es, Min(i + 1, |es|), next)
  {
    ConsumeAtBoundary(file, base, es, i, c, Full, Full, true);
    next := Consume(file, Full, Full, c, true).cursor;
  }

  lemma {:induction false} ConsumeTimesAt(file: bytes, base: nat, es: seq<Event>, i: nat, c: Cursor, n: nat)
    requires At(file, base, es, i, c)
    ensures ConsumeTimes(file, c, n).pointer == Boundary(base, es, Min(i + n, |es|))
    decreases n
  {
    if n > 0 {
      var next := ConsumeTimesStep(file, base, es, i, c, n);
      ConsumeTimesAt(file, base, es, Min(i + 1, |es|), next, n - 1);
    }
  }

  /** On a framed log, acknowledging `n` frames moves the pointer as far as `n` consumes do. */
  lemma BatchMovesLikeConsumes(file: bytes, base: nat, es: seq<Event>, i: nat, c: Cursor, n: nat)
    requires At(file, base, es, i, c) && n > 0
    ensures ConsumeTimes(file, c, n).pointer == AckBatch(file, Full, c, n).cursor.pointer
  {
    BatchAtBoundary(file, base, es, i, c, n);
    ConsumeTimesAt(file, base, es, i, c, n);
  }

  /** Acknowledging by size agrees with stepping over one frame for exactly one size: the frame's own. */
  lemma SizedAckAgreesExactly(file: bytes, base: nat, es: seq<Event>, i: nat, c: Cursor, n: size_t)
    requires At(file, base, es, i, c) && i < |es|
    ensures AckBySize(file, Full, c, n) == AckBatch(file, Full, c, 1) <==> n == |es[i]|
  {
    BatchAtBoundary(file, base, es, i, c, 1);
    BoundaryStep(base, es, i);
    HeaderAtFrame(file, base, es, i, c);
  }

  /** `sizes` are the lengths of the `|sizes|` events from `i` on. */
  ghost predicate SizesOf(sizes: seq<size_t>, es: seq<Event>, i: nat) {
    i + |sizes| <= |es| && forall k :: 0 <= k < |sizes| ==> sizes[k] == |es[i + k]|
  }

  lemma {:induction false} TotalSpansFrames(base: nat, es: seq<Event>, i: nat, sizes: seq<size_t>)
    requires SizesOf(sizes, es, i) && Boundary(base, es, i + |sizes|) < HALF_MOD
    ensures Boundary(base, es, i) <= Boundary(base, es, i + |sizes|)
    ensures TotalOf(sizes) == Some(Boundary(base, es, i + |sizes|) - Boundary(base, es, i))
    decreases |sizes|
  {
    if sizes != [] {
      var n := |sizes| - 1;
      BoundaryStep(base, es, i + n);
      TotalSpansFrames(base, es, i, sizes[..n]);
    }
  }

  /** Acknowledging by the frames' own sizes is the same as stepping over as many frames. */
  lemma SizesAgreeWithFrames(file: bytes, base: nat, es: seq<Event>, i: nat, c: Cursor, sizes: seq<size_t>)
    requires At(file, base, es, i, c) && sizes != [] && SizesOf(sizes, es, i)
    ensures AckBatchBySize(file, Full, c, sizes) == AckBatch(file, Full, c, |sizes|)
  {
    BoundaryEnds(file, base, es);
    BoundaryOrder(base, es, i, i + |sizes|);
    BoundaryOrder(base, es, i + |sizes|, |es|);
    TotalSpansFrames(base, es, i, sizes);
    BatchAtBoundary(file, base, es, i, c, |sizes|);
  }

  /** From boundary `j`, acknowledging the packet of frame `i`, by packet or by offset, moves to boundary
      max(j, i + 1). */
  lemma AckOfFrame(file: bytes, base: nat, es: seq<Event>, i: nat, j: nat, c: Cursor)
    requires At(file, base, es, j, c) && i < |es|
    ensures
      var p := Boundary(base, es, i);
      && p < SIZE_MOD
      && var o := AckPacket(file, Full, c, p, |es[i]|);
      && o == AckByOffset(file, Full, c, p, |es[i]|)
      && o.result == 0 && o.cursor.lastRead == c.lastRead
      && o.cursor.pointer == Boundary(base, es, Max(j, i + 1))
  {
    FrameAt(file, base, es, i);
    BoundaryEnds(file, base, es);
    BoundaryOrder(base, es, j, |es|);
    if j <= i {
      BoundaryOrder(base, es, j, i + 1);
    } else {
      BoundaryOrder(base, es, i + 1, j);
    }
  }
}
