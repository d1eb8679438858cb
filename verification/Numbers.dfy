/** Arithmetic that several models share. */
module Numbers {

  function Abs(r: real): real {
    if r < 0.0 then -r else r
  }

  function Min(a: int, b: int): int {
    if a < b then a else b
  }

  /** The product, behind a name that keeps nonlinear terms out of proofs. */
  function Product(m: nat, n: nat): nat {
    m * n
  }
}
