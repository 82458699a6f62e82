/** Amortised cost of the doubling buffer in `chunk_append`, and where its loop ends (src/writer/read_write_data.c:95-122). */
module Growth {
  import opened Machine
  import opened ChunkStore

  datatype Piece = Piece(b: bytes, canGrow: bool)

  function Fill(v: View, pieces: seq<Piece>): View
    decreases |pieces|
  {
    if pieces == [] then v else Fill(Appended(v, pieces[0].b, pieces[0].canGrow), pieces[1..])
  }

  /** The bytes one append makes `realloc` copy: the whole old block when the block grows. */
  function Copied(v: View, p: Piece): nat {
    if AppendCode(v, p.b, p.canGrow) == 0 && |v.ram| + |p.b| > v.capacity then v.capacity else 0
  }

  function TotalCopied(v: View, pieces: seq<Piece>): nat
    decreases |pieces|
  {
    if pieces == [] then 0
    else Copied(v, pieces[0]) + TotalCopied(Appended(v, pieces[0].b, pieces[0].canGrow), pieces[1..])
  }

  /** The pieces that `chunk_append` took, one after the other. */
  function Accepted(v: View, pieces: seq<Piece>): bytes
    decreases |pieces|
  {
    if pieces == [] then []
    else (if AppendCode(v, pieces[0].b, pieces[0].canGrow) == 0 then pieces[0].b else [])
         + Accepted(Appended(v, pieces[0].b, pieces[0].canGrow), pieces[1..])
  }

  ghost predicate Tight(v: View) {
    |v.ram| <= v.capacity && (v.capacity <= INITIAL_CAPACITY || v.capacity < 2 * |v.ram|)
  }

  /** The block never exceeds twice its content (or the first 1024 bytes), and all copying together
      costs no more than the block that is there at the end. */
  lemma {:induction false} GrowthIsAmortised(v: View, pieces: seq<Piece>)
    requires Tight(v)
    ensures Tight(Fill(v, pieces))
    ensures TotalCopied(v, pieces) + v.capacity <= Fill(v, pieces).capacity
    ensures Fill(v, pieces).ram == v.ram + Accepted(v, pieces)
    ensures Fill(v, pieces).persisted == v.persisted
    decreases |pieces|
  {
    if pieces != [] {
      var p := pieces[0];
      var next := Appended(v, p.b, p.canGrow);
      assert Copied(v, p) + v.capacity <= next.capacity;
      GrowthIsAmortised(next, pieces[1..]);
      var head := if AppendCode(v, p.b, p.canGrow) == 0 then p.b else [];
      assert v.ram + (head + Accepted(next, pieces[1..])) == (v.ram + head) + Accepted(next, pieces[1..]);
    }
  }

  /** From `chunk_init`, for every sequence of appends. */
  lemma FreshChunkGrowth(pieces: seq<Piece>)
    ensures
      var v := Fill(View([], 0, 0), pieces);
      && v.ram == Accepted(View([], 0, 0), pieces)
      && v.capacity <= Max(INITIAL_CAPACITY, 2 * |v.ram|)
      && TotalCopied(View([], 0, 0), pieces) <= v.capacity
  {
    GrowthIsAmortised(View([], 0, 0), pieces);
  }

  /** The capacity after `k` passes of the C loop, wrap-around included. */
  function AfterPasses(c: size_t, k: nat): size_t
    decreases k
  {
    if k == 0 then c else AfterPasses(Twice(c), k - 1)
  }

  function Pow2(k: nat): (r: nat)
    ensures r > 0
  {
    if k == 0 then 1 else 2 * Pow2(k - 1)
  }

  lemma {:induction false} Pow2Monotone(j: nat, k: nat)
    requires j <= k
    ensures Pow2(j) <= Pow2(k)
    decreases k - j
  {
    if j < k {
      Pow2Monotone(j, k - 1);
    }
  }

  lemma Pow2SevenMore(k: nat)
    ensures Pow2(k + 7) == 128 * Pow2(k)
  {
    assert Pow2(k + 7) == 2 * Pow2(k + 6) == 4 * Pow2(k + 5) == 8 * Pow2(k + 4);
    assert Pow2(k + 4) == 2 * Pow2(k + 3) == 4 * Pow2(k + 2) == 8 * Pow2(k + 1);
  }

  lemma Pow2At28()
    ensures Pow2(28) == 0x1000_0000
  {
    Pow2SevenMore(0);
    Pow2SevenMore(7);
    Pow2SevenMore(14);
    Pow2SevenMore(21);
  }

  lemma Pow2At63()
    ensures Pow2(63) == HALF_MOD
  {
    Pow2At28();
    Pow2SevenMore(28);
    Pow2SevenMore(35);
    Pow2SevenMore(42);
    Pow2SevenMore(49);
    Pow2SevenMore(56);
  }

  lemma {:induction false} ZeroStaysZero(k: nat)
    ensures AfterPasses(0, k) == 0
  {
    if k > 0 {
      ZeroStaysZero(k - 1);
    }
  }

  lemma {:induction false} PassesReach(c: size_t, required: nat) returns (k: nat)
    requires 0 < c && required <= HALF_MOD
    ensures AfterPasses(c, k) == Doubled(c, required)
    decreases required - c
  {
    if required <= c {
      k := 0;
    } else {
      k := PassesReach(Twice(c), required);
      k := k + 1;
    }
  }

  lemma {:induction false} PassesStayLow(j: nat, k: nat)
    requires j <= 63
    ensures Pow2(j) <= Pow2(63) == HALF_MOD
    ensures AfterPasses(Pow2(j), k) <= HALF_MOD
    decreases k
  {
    Pow2At63();
    Pow2Monotone(j, 63);
    if k > 0 {
      if j < 63 {
        Pow2Monotone(j + 1, 63);
        assert Twice(Pow2(j)) == Pow2(j + 1);
        PassesStayLow(j + 1, k - 1);
      } else {
        assert Twice(Pow2(j)) == 0;
        ZeroStaysZero(k - 1);
      }
    }
  }

  /** From a power-of-two capacity, which `FilledIsPowerSized` gives every append-only chunk, the doubling loop ends
      exactly when the required size is at most 2^63. */
  lemma DoublingEndsExactly(j: nat, required: nat)
    requires j <= 63
    ensures Pow2(j) <= HALF_MOD
    ensures (exists k: nat :: required <= AfterPasses(Pow2(j), k)) <==> required <= HALF_MOD
  {
    PassesStayLow(j, 0);
    if required <= HALF_MOD {
      var k := PassesReach(Pow2(j), required);
      assert required <= AfterPasses(Pow2(j), k);
    } else {
      forall k: nat ensures AfterPasses(Pow2(j), k) < required {
        PassesStayLow(j, k);
      }
    }
  }

  lemma {:induction false} DoubledPower(k: nat, required: nat) returns (j: nat)
    ensures k <= j && Doubled(Pow2(k), required) == Pow2(j)
    decreases required - Pow2(k)
  {
    j := k;
    if Pow2(k) < required {
      j := DoubledPower(k + 1, required);
    }
  }

  /** No block yet, or a power of two from 1024 on. */
  ghost predicate PowerSized(capacity: nat) {
    capacity == 0 || exists k: nat :: k >= 10 && capacity == Pow2(k)
  }

  lemma GrownIsPowerSized(capacity: nat, required: nat)
    requires PowerSized(capacity)
    ensures PowerSized(GrownCapacity(capacity, required))
  {
    if required > capacity {
      assert Pow2(10) == 8 * Pow2(7) == 1024;
      var k: nat := 10;
      if capacity != 0 {
        k :| k >= 10 && capacity == Pow2(k);
        assert 2 * capacity == Pow2(k + 1);
        k := k + 1;
      }
      var j := DoubledPower(k, required);
    }
  }

  /** Every chunk that was only appended to since `chunk_init` has such a block, so `DoublingEndsExactly` applies
      to its next append. */
  lemma {:induction false} FilledIsPowerSized(v: View, pieces: seq<Piece>)
    requires PowerSized(v.capacity)
    ensures PowerSized(Fill(v, pieces).capacity)
    decreases |pieces|
  {
    if pieces != [] {
      var p := pieces[0];
      if AppendCode(v, p.b, p.canGrow) == 0 {
        GrownIsPowerSized(v.capacity, |v.ram| + |p.b|);
      }
      FilledIsPowerSized(Appended(v, p.b, p.canGrow), pieces[1..]);
    }
  }
}
