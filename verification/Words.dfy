/** 32-bit unsigned words as natural numbers: wrap-around, subtraction, and the signed reading. */
module Words {
  const UINT32: nat := 0x1_0000_0000
  const HALF_RANGE: nat := 0x8000_0000

  function Minus32(a: nat, b: nat): nat { (a - b) % UINT32 }

  function Signed32(n: nat): int
    requires n < UINT32
  {
    if n < HALF_RANGE then n else n - UINT32
  }

  lemma Turns(x: int, q: int)
    ensures (x + q * UINT32) % UINT32 == x % UINT32
  {}
}
