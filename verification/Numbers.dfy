/** Shared arithmetic. */
module Numbers {
  function Min(a: nat, b: nat): nat {
    if a < b then a else b
  }

  function Clamp(i: int, lo: int, hi: int): int {
    if i < lo then lo else if i > hi then hi else i
  }
}
