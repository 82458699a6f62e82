/** Reassembly of a request body from the pieces it arrives in (src/api/publish_event.c:15-59). */
module Upload {
  import opened Machine
  import opened ChunkStore
  import opened Growth

  const MAX_BODY := 10 * 1024 * 1024
  const INITIAL_BUFFER := 4096

  datatype Body = Body(text: bytes, capacity: nat)

  function RoomFor(capacity: nat, size: nat): nat {
    if size <= capacity then capacity
    else Doubled(if capacity == 0 then INITIAL_BUFFER else 2 * capacity, size)
  }

  function AcceptCode(b: Body, piece: bytes, canGrow: bool): int {
    if piece == [] || |b.text| + |piece| > MAX_BODY then -1
    else if |b.text| + |piece| > b.capacity && !canGrow then -1
    else 0
  }

  function Accept(b: Body, piece: bytes, canGrow: bool): Body {
    if AcceptCode(b, piece, canGrow) != 0 then b
    else Body(b.text + piece, RoomFor(b.capacity, |b.text| + |piece|))
  }

  class RequestBuffer {
    var buffer: array<byte>
    var size: nat
    var capacity: nat

    ghost predicate Valid()
      reads this
    {
      size <= capacity == buffer.Length && size <= MAX_BODY
    }

    ghost function Value(): Body
      reads this, buffer
      requires Valid()
    {
      Body(buffer[..size], capacity)
    }

    constructor ()
      ensures Valid() && fresh(buffer) && Value() == Body([], 0)
    {
      buffer := new byte[0];
      size, capacity := 0, 0;
    }

    /** `append_to_buffer` */
    method Append(piece: bytes, canGrow: bool) returns (code: int)
      requires Valid()
      modifies this, buffer
      ensures Valid() && (buffer == old(buffer) || fresh(buffer))
      ensures Value() == Accept(old(Value()), piece, canGrow)
      ensures code == AcceptCode(old(Value()), piece, canGrow)
    {
      if |piece| == 0 {
        return -1;
      }
      var newSize := size + |piece|;
      if newSize > MAX_BODY {
        return -1;
      }
      if newSize > capacity {
        if !canGrow {
          return -1;
        }
        Grow(newSize);
      }
      Memcpy(buffer, size, piece);
      size := newSize;
      return 0;
    }

    /** A larger block with the same content. */
    method Grow(newSize: nat)
      requires Valid() && capacity < newSize
      modifies this`buffer, this`capacity
      ensures Valid() && fresh(buffer) && capacity == RoomFor(old(capacity), newSize)
      ensures buffer[..size] == old(buffer[..size])
    {
      var newCapacity := NextCapacity(newSize);
      buffer := Realloc(buffer, newCapacity);
      capacity := newCapacity;
    }

    /** The doubling loop of `append_to_buffer`. */
    method NextCapacity(newSize: nat) returns (newCapacity: nat)
      requires capacity < newSize
      ensures newCapacity == RoomFor(capacity, newSize)
    {
      newCapacity := if capacity == 0 then INITIAL_BUFFER else capacity * 2;
      while newCapacity < newSize
        invariant 0 < newCapacity
        invariant Doubled(newCapacity, newSize) == RoomFor(capacity, newSize)
        decreases newSize - newCapacity
      {
        newCapacity := newCapacity * 2;
      }
    }
  }

  function Collect(b: Body, pieces: seq<Piece>): Body
    decreases |pieces|
  {
    if pieces == [] then b else Collect(Accept(b, pieces[0].b, pieces[0].canGrow), pieces[1..])
  }

  function Taken(b: Body, pieces: seq<Piece>): bytes
    decreases |pieces|
  {
    if pieces == [] then []
    else (if AcceptCode(b, pieces[0].b, pieces[0].canGrow) == 0 then pieces[0].b else [])
         + Taken(Accept(b, pieces[0].b, pieces[0].canGrow), pieces[1..])
  }

  /** Capacities are 0 or 4096 times a power of two, and at most 2^24. */
  ghost predicate BufferSized(capacity: nat) {
    capacity == 0 || exists k: nat :: k <= 12 && capacity == 4096 * Pow2(k)
  }

  ghost predicate Sized(b: Body) {
    |b.text| <= MAX_BODY && |b.text| <= b.capacity && BufferSized(b.capacity)
  }

  lemma {:induction false} DoublingKeepsPowers(k: nat, size: nat) returns (j: nat)
    requires size <= MAX_BODY && k <= 12
    ensures j <= 12 && Doubled(INITIAL_BUFFER * Pow2(k), size) == INITIAL_BUFFER * Pow2(j)
    decreases 12 - k
  {
    if size <= INITIAL_BUFFER * Pow2(k) {
      j := k;
    } else {
      assert k < 12 by {
        assert Pow2(12) == 32 * Pow2(7) == 4096;
      }
      assert 2 * (INITIAL_BUFFER * Pow2(k)) == INITIAL_BUFFER * Pow2(k + 1);
      j := DoublingKeepsPowers(k + 1, size);
    }
  }

  lemma RoomIsSized(capacity: nat, size: nat) returns (j: nat)
    requires capacity < size <= MAX_BODY
    requires BufferSized(capacity)
    ensures j <= 12 && RoomFor(capacity, size) == INITIAL_BUFFER * Pow2(j)
  {
    if capacity == 0 {
      assert Pow2(0) == 1;
      j := DoublingKeepsPowers(0, size);
    } else {
      var k: nat :| k <= 12 && capacity == 4096 * Pow2(k);
      assert Doubled(capacity, size) == Doubled(2 * capacity, size);
      j := DoublingKeepsPowers(k, size);
    }
  }

  lemma AcceptKeepsSized(b: Body, piece: bytes, canGrow: bool)
    requires Sized(b)
    ensures Sized(Accept(b, piece, canGrow))
  {
    var size := |b.text| + |piece|;
    if AcceptCode(b, piece, canGrow) == 0 && size > b.capacity {
      var j := RoomIsSized(b.capacity, size);
    }
  }

  lemma {:induction false} CollectKeepsSized(b: Body, pieces: seq<Piece>)
    requires Sized(b)
    ensures Sized(Collect(b, pieces))
    decreases |pieces|
  {
    if pieces != [] {
      AcceptKeepsSized(b, pieces[0].b, pieces[0].canGrow);
      CollectKeepsSized(Accept(b, pieces[0].b, pieces[0].canGrow), pieces[1..]);
    }
  }

  lemma {:induction false} CollectJoinsTaken(b: Body, pieces: seq<Piece>)
    ensures Collect(b, pieces).text == b.text + Taken(b, pieces)
    decreases |pieces|
  {
    if pieces != [] {
      var p := pieces[0];
      var n := Accept(b, p.b, p.canGrow);
      CollectJoinsTaken(n, pieces[1..]);
      Assoc(b.text, if AcceptCode(b, p.b, p.canGrow) == 0 then p.b else [], Taken(n, pieces[1..]));
    }
  }

  /** Over every sequence of pieces the body is the concatenation of the accepted ones, at most 10 MiB,
      in a buffer of 4096 * 2^k bytes with k at most 12. */
  lemma BodyIsAcceptedPieces(b: Body, pieces: seq<Piece>)
    requires Sized(b)
    ensures Sized(Collect(b, pieces))
    ensures Collect(b, pieces).text == b.text + Taken(b, pieces)
  {
    CollectKeepsSized(b, pieces);
    CollectJoinsTaken(b, pieces);
  }

  function Joined(pieces: seq<Piece>): bytes {
    if pieces == [] then [] else pieces[0].b + Joined(pieces[1..])
  }

  lemma {:induction false} CollectsUpTo(b: Body, pieces: seq<Piece>)
    requires |b.text| <= MAX_BODY && forall i :: 0 <= i < |pieces| ==> pieces[i].canGrow
    ensures |Collect(b, pieces).text| <= MAX_BODY
    ensures |b.text| + |Joined(pieces)| <= MAX_BODY ==> Collect(b, pieces).text == b.text + Joined(pieces)
    decreases |pieces|
  {
    if pieces != [] {
      assert forall i :: 0 <= i < |pieces[1..]| ==> pieces[1..][i] == pieces[i + 1];
      CollectsUpTo(Accept(b, pieces[0].b, true), pieces[1..]);
      Assoc(b.text, pieces[0].b, Joined(pieces[1..]));
    } else {
      assert b.text + [] == b.text;
    }
  }

  /** With memory at hand a request body arrives complete, however it is cut into pieces, if and only if it is at most
      10 MiB long. */
  lemma WholeBodyArrivesExactly(pieces: seq<Piece>)
    requires forall i :: 0 <= i < |pieces| ==> pieces[i].canGrow
    ensures Collect(Body([], 0), pieces).text == Joined(pieces) <==> |Joined(pieces)| <= 10485760
  {
    CollectsUpTo(Body([], 0), pieces);
    assert [] + Joined(pieces) == Joined(pieces);
  }

  /** Without memory a piece is taken exactly when the block holds it. */
  lemma FullBlockRefuses(b: Body, piece: bytes)
    requires Sized(b) && piece != []
    ensures Accept(b, piece, false).text == b.text + piece <==> |b.text| + |piece| <= Min(b.capacity, 10485760)
  {
  }
}
