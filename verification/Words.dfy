/** Machine words and byte buffers: the source's fixed-width integers written out over `int`. */
module Words {

  const TWO16 := 0x1_0000
  const TWO31 := 0x8000_0000
  const TWO32 := 0x1_0000_0000

  type byte = b: int | 0 <= b < 256
  type uint16 = w: int | 0 <= w < 0x1_0000
  type uint32 = w: int | 0 <= w < 0x1_0000_0000

  /** Largest payload of one frame, PLC_IPC_MAX_FRAME_BYTES. */
  const MAX_FRAME_BYTES := 496

  /** Frames a ring holds, PLC_IPC_RING_SLOTS. */
  const SLOTS := 4

  /** The low 32 bits of an unbounded counter. */
  function Low32(n: int): uint32 {
    n % TWO32
  }

  /** Division with remainder is unique. */
  lemma Mod32Is(x: int, q: int, r: int)
    requires x == 0x1_0000_0000 * q + r && 0 <= r < 0x1_0000_0000
    ensures x % 0x1_0000_0000 == r
  {}

  lemma Low32Next(n: int)
    ensures Low32(Low32(n) + 1) == Low32(n + 1)
  {
    var q, r := n / TWO32, Low32(n);
    Mod32Is(n + 1, if r + 1 < TWO32 then q else q + 1, if r + 1 < TWO32 then r + 1 else 0);
  }

  /** `(int32_t)(a - b)` on uint32_t operands. */
  function SignedDiff32(a: uint32, b: uint32): (d: int)
    ensures -TWO31 <= d < TWO31
  {
    var m := (a - b) % TWO32;
    if m < TWO31 then m else m - TWO32
  }

  /** `a` is behind `b` on the modular counter: the test `(int32_t)(a - b) < 0`. */
  predicate Behind32(a: uint32, b: uint32) {
    SignedDiff32(a, b) < 0
  }

  /** The signed difference of two counters seen through their low words, by their true distance. */
  lemma SignedDiffOfCounters(a: int, b: int)
    ensures var r: int := Low32(b - a);
            SignedDiff32(Low32(a), Low32(b)) == if r <= TWO31 then -r else TWO32 - r
  {
    var p, q, k, r := a / TWO32, b / TWO32, (b - a) / TWO32, Low32(b - a);
    var d := Low32(a) - Low32(b);
    assert d == TWO32 * (q - p - k) - r;
    if r == 0 {
      Mod32Is(d, q - p - k, 0);
    } else {
      Mod32Is(d, q - p - k - 1, TWO32 - r);
    }
  }

  /** `(int16_t)(a - b)` on uint16_t operands. */
  function SignedDiff16(a: uint16, b: uint16): (d: int)
    ensures -0x8000 <= d < 0x8000
  {
    var m := (a - b) % TWO16;
    if m < 0x8000 then m else m - TWO16
  }

  function Zeros(n: nat): (z: seq<byte>)
    ensures |z| == n && forall i :: 0 <= i < n ==> z[i] == 0
  {
    seq(n, _ => 0)
  }

  /** `data` cut or zero-extended to exactly `n` bytes. */
  function FitTo(data: seq<byte>, n: nat): (r: seq<byte>)
    ensures |r| == n
    ensures forall i :: 0 <= i < n ==> r[i] == if i < |data| then data[i] else 0
  {
    if n <= |data| then data[..n] else data + Zeros(n - |data|)
  }

  function Min(a: int, b: int): int {
    if a < b then a else b
  }

  function Max(a: int, b: int): int {
    if a < b then b else a
  }
}
