/** Bytes, 64-bit sizes and 32-bit lengths as the C code sees them. */
module Machine {

  datatype Option<+T> = None | Some(value: T)

  type byte = b: int | 0 <= b < 256
  type bytes = seq<byte>

  const SIZE_MOD: int := 0x1_0000_0000_0000_0000
  const HALF_MOD: int := 0x8000_0000_0000_0000
  const U32_MOD: int := 0x1_0000_0000

  /** `size_t`: sums wrap at 2^64. */
  type size_t = n: int | 0 <= n < SIZE_MOD
  type uint32 = n: int | 0 <= n < U32_MOD

  /** `a + b` on `size_t`. */
  function Plus(a: size_t, b: size_t): size_t {
    if a + b < SIZE_MOD then a + b else a + b - SIZE_MOD
  }

  /** `a * 2` on `size_t`. */
  function Twice(a: size_t): size_t {
    Plus(a, a)
  }

  function Min(a: int, b: int): int {
    if a < b then a else b
  }

  function Max(a: int, b: int): int {
    if a < b then b else a
  }

  lemma Assoc<T>(a: seq<T>, b: seq<T>, c: seq<T>)
    ensures a + (b + c) == (a + b) + c
  {
  }

  /** The four bytes of a `uint32_t` in memory on a little-endian machine. */
  function EncodeU32(n: uint32): (b: bytes)
    ensures |b| == 4
  {
    [n % 256, n / 256 % 256, n / 65536 % 256, n / 16777216]
  }

  /** The `uint32_t` those four bytes hold. */
  function DecodeU32(b: bytes): uint32
    requires |b| == 4
  {
    var b0: int, b1: int, b2: int, b3: int := b[0], b[1], b[2], b[3];
    b0 + 256 * b1 + 65536 * b2 + 16777216 * b3
  }

  lemma DecodeEncode(n: uint32)
    ensures DecodeU32(EncodeU32(n)) == n
  {
    assert n / 65536 == n / 256 / 256;
    assert n / 16777216 == n / 256 / 256 / 256;
  }

  lemma EncodeDecode(b: bytes)
    requires |b| == 4
    ensures EncodeU32(DecodeU32(b)) == b
  {
    var b0: int, b1: int, b2: int, b3: int := b[0], b[1], b[2], b[3];
    var n := DecodeU32(b);
    assert n / 256 == b1 + 256 * b2 + 65536 * b3;
    assert n / 65536 == b2 + 256 * b3;
    assert n / 16777216 == b3;
  }

  /** `realloc` to a larger block: the old bytes keep their places. */
  method Realloc(block: array<byte>, n: nat) returns (bigger: array<byte>)
    requires block.Length <= n
    ensures fresh(bigger) && bigger.Length == n && bigger[..block.Length] == block[..]
  {
    bigger := new byte[n];
    forall i | 0 <= i < block.Length {
      bigger[i] := block[i];
    }
  }

  /** `memcpy` into a block. */
  method Memcpy(block: array<byte>, at: nat, b: bytes)
    requires at + |b| <= block.Length
    modifies block
    ensures block[..at] == old(block[..at]) && block[at..at + |b|] == b
    ensures block[at + |b|..] == old(block[at + |b|..])
    ensures block[..at + |b|] == old(block[..at]) + b
  {
    forall i | 0 <= i < |b| {
      block[at + i] := b[i];
    }
  }
}
