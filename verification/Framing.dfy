/** The log format: every event is a 4-byte length followed by its bytes (src/messaging/publish_event.c:24-36). */
module Framing {
  import opened Machine

  const HEADER := 4
  const MAX_EVENT := 10 * 1024 * 1024

  type Event = e: bytes | 1 <= |e| <= MAX_EVENT witness [0]

  function Frame(e: Event): (f: bytes)
    ensures |f| == HEADER + |e|
  {
    EncodeU32(|e|) + e
  }

  function Frames(es: seq<Event>): bytes {
    if es == [] then [] else Frame(es[0]) + Frames(es[1..])
  }

  /** The bytes of `log` from `base` on are exactly the frames of `es`. */
  ghost predicate Framed(log: bytes, base: nat, es: seq<Event>) {
    base <= |log| && log[base..] == Frames(es)
  }

  /** The offset at which frame `i` starts. */
  function Boundary(base: nat, es: seq<Event>, i: nat): nat
    requires i <= |es|
  {
    base + |Frames(es[..i])|
  }

  lemma {:induction false} FramesConcat(a: seq<Event>, b: seq<Event>)
    ensures Frames(a + b) == Frames(a) + Frames(b)
  {
    if a == [] {
      assert a + b == b;
    } else {
      assert (a + b)[1..] == a[1..] + b;
      FramesConcat(a[1..], b);
      Assoc(Frame(a[0]), Frames(a[1..]), Frames(b));
    }
  }

  lemma FramesOne(e: Event)
    ensures Frames([e]) == Frame(e)
  {
  }

  lemma BoundaryStep(base: nat, es: seq<Event>, i: nat)
    requires i < |es|
    ensures Boundary(base, es, i + 1) == Boundary(base, es, i) + HEADER + |es[i]|
  {
    assert es[..i + 1] == es[..i] + [es[i]];
    FramesConcat(es[..i], [es[i]]);
    FramesOne(es[i]);
  }

  lemma {:induction false} BoundaryOrder(base: nat, es: seq<Event>, i: nat, j: nat)
    requires i <= j <= |es|
    ensures Boundary(base, es, i) <= Boundary(base, es, j)
    ensures i < j ==> Boundary(base, es, i) < Boundary(base, es, j)
    decreases j - i
  {
    if i < j {
      BoundaryStep(base, es, j - 1);
      BoundaryOrder(base, es, i, j - 1);
    }
  }

  lemma BoundaryEnds(log: bytes, base: nat, es: seq<Event>)
    requires Framed(log, base, es)
    ensures Boundary(base, es, 0) == base && Boundary(base, es, |es|) == |log|
  {
    assert es[..|es|] == es;
  }

  lemma SlicesBehind(s: bytes, base: nat, a: bytes, b: bytes, c: bytes, d: bytes)
    requires base <= |s| && s[base..] == a + (b + c + d)
    ensures
      var p := base + |a|;
      && |s| == p + |b| + |c| + |d|
      && s[p..p + |b|] == b
      && s[p + |b|..p + |b| + |c|] == c
  {
  }

  lemma FramesAround(es: seq<Event>, i: nat)
    requires i < |es|
    ensures Frames(es) == Frames(es[..i]) + (EncodeU32(|es[i]|) + es[i] + Frames(es[i + 1..]))
  {
    var tail := es[i..];
    assert es == es[..i] + tail && tail[0] == es[i] && tail[1..] == es[i + 1..];
    FramesConcat(es[..i], tail);
  }

  /** At boundary `i` of a framed log stand the length and the bytes of event `i`. */
  lemma FrameAt(log: bytes, base: nat, es: seq<Event>, i: nat)
    requires Framed(log, base, es) && i < |es|
    ensures
      var p := Boundary(base, es, i);
      && p + HEADER + |es[i]| == Boundary(base, es, i + 1) <= |log|
      && log[p..p + HEADER] == EncodeU32(|es[i]|)
      && log[p + HEADER..p + HEADER + |es[i]|] == es[i]
  {
    FramesAround(es, i);
    SlicesBehind(log, base, Frames(es[..i]), EncodeU32(|es[i]|), es[i], Frames(es[i + 1..]));
    BoundaryStep(base, es, i);
  }

  /** Appending whole frames keeps a log framed and keeps all its boundaries. */
  lemma FramedGrows(log: bytes, base: nat, es: seq<Event>, more: seq<Event>)
    requires Framed(log, base, es)
    ensures Framed(log + Frames(more), base, es + more)
    ensures forall i: nat :: i <= |es| ==> Boundary(base, es + more, i) == Boundary(base, es, i)
  {
    FramesConcat(es, more);
    assert (log + Frames(more))[base..] == log[base..] + Frames(more);
    forall i: nat | i <= |es| ensures (es + more)[..i] == es[..i] {
    }
  }
}
