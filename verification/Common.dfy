/** Definitions several modules use. */
module Common {
  type Byte = x: int | 0 <= x < 256

  datatype Option<+T> = None | Some(value: T)

  function Power2(n: nat): (r: nat)
    ensures r > 0
  {
    if n == 0 then 1 else 2 * Power2(n - 1)
  }

  /** Bit number `k` of a number, 0 being the lowest. */
  function Bit(n: nat, k: nat): bool {
    if k == 0 then n % 2 == 1 else Bit(n / 2, k - 1)
  }

  lemma ZeroHasNoBit(k: nat)
    ensures !Bit(0, k)
  {
  }
}
