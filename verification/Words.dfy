/** Machine words of the queues: u32 laps, u64 metas, and the packing of the two. */
module Words {

  const TWO32: int := 0x1_0000_0000
  const TWO64: int := 0x1_0000_0000_0000_0000

  type U32 = x: int | 0 <= x < 0x1_0000_0000
  type U64 = x: int | 0 <= x < 0x1_0000_0000_0000_0000

  /** The largest capacity a ring accepts (`1 << 30`). */
  const MAX_CAPACITY: int := 0x4000_0000

  /** The closed bit of an MPMC queue, seen from the lap (`1 << 31`) and from the whole meta (`1 << 63`). */
  const MASK32: U32 := 0x8000_0000
  const MASK64: U64 := 0x8000_0000_0000_0000

  function WrapAdd32(a: U32, b: U32): U32 {
    (a + b) % TWO32
  }

  function WrapAdd64(a: U64, b: U64): U64 {
    (a + b) % TWO64
  }

  /** `(lap as u64) << 32 | idx`, for an idx that fits in 32 bits. */
  function Pack(lap: int, idx: int): int {
    lap * TWO32 + idx
  }

  /** `(meta >> 32) as u32` */
  function LapOf(meta: U64): U32 {
    meta / TWO32
  }

  /** `meta as u32` */
  function IdxOf(meta: U64): U32 {
    meta % TWO32
  }

  /** `meta | MPMC_MASK_64` */
  function SetClosedBit(meta: U64): U64 {
    if meta >= MASK64 then meta else meta + MASK64
  }

  /** The meta after a claim on `meta`: the next index, or index 0 two laps on. */
  function Bump(meta: U64, cap: nat): U64 {
    if IdxOf(meta) + 1 < cap then WrapAdd64(meta, 1) else WrapAdd32(LapOf(meta), 2) * TWO32
  }

  predicate BumpsExactly(m: U64, m': U64, cap: nat) {
    if IdxOf(m) + 1 < cap then LapOf(m') == LapOf(m) && IdxOf(m') == IdxOf(m) + 1
    else LapOf(m') == LapOf(m) + 2 && IdxOf(m') == 0
  }

  /** Below the last two laps a bump neither wraps the lap nor carries the index into it. */
  lemma BumpWithoutWrap(m: U64, cap: nat)
    requires cap <= MAX_CAPACITY && LapOf(m) + 2 < TWO32
    ensures BumpsExactly(m, Bump(m, cap), cap)
  {
    Unpack(LapOf(m) + 2, 0);
    if IdxOf(m) + 1 < cap {
      assert m == Pack(LapOf(m), IdxOf(m));
      Unpack(LapOf(m), IdxOf(m) + 1);
      assert WrapAdd64(m, 1) == Pack(LapOf(m), IdxOf(m) + 1);
    }
  }

  /** Setting bit 63 of a meta sets bit 31 of its lap, and nothing else. */
  lemma ClosedBit(m: U64)
    ensures LapOf(m) >= MASK32 <==> m >= MASK64
    ensures m < MASK64 ==> LapOf(m + MASK64) == LapOf(m) + MASK32 && IdxOf(m + MASK64) == IdxOf(m)
  {
  }

  /** Write and read laps of rounds r and r + 1, modulo 2^32. */
  lemma WrapLaps(r: nat)
    ensures (2 * r) % TWO32 % 2 == 0
    ensures (2 * r + 1) % TWO32 == (2 * r) % TWO32 + 1
    ensures (2 * (r + 1)) % TWO32 == WrapAdd32((2 * r) % TWO32, 2) == WrapAdd32((2 * r + 1) % TWO32, 1)
    ensures (2 * (r + 1)) % TWO32 == if (2 * r + 1) % TWO32 == TWO32 - 1 then 0 else (2 * r + 1) % TWO32 + 1
    ensures (2 * (r + 1) + 1) % TWO32 == WrapAdd32((2 * r + 1) % TWO32, 2)
  {
    var h, q := r % MASK32, r / MASK32;
    assert 2 * r == q * TWO32 + 2 * h && 2 * h < TWO32;
    assert (2 * r) % TWO32 == 2 * h;
    assert (2 * r + 1) % TWO32 == 2 * h + 1;
    if h + 1 == MASK32 {
      assert (2 * r + 2) % TWO32 == 0 && (2 * r + 3) % TWO32 == 1;
    } else {
      assert (2 * r + 2) % TWO32 == 2 * h + 2 && (2 * r + 3) % TWO32 == 2 * h + 3;
    }
  }

  lemma Unpack(lap: U32, idx: U32)
    ensures 0 <= Pack(lap, idx) < TWO64
    ensures LapOf(Pack(lap, idx)) == lap && IdxOf(Pack(lap, idx)) == idx
  {
  }
}

module Options {
  datatype Option<+T> = None | Some(value: T)
}
