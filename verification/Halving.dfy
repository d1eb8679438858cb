/** Repeated halving of an interval. */
module Halving {

  function Halved(width: real, n: nat): real {
    if n == 0 then width else Halved(width, n - 1) / 2.0
  }

  lemma {:induction false} HalfHalved(width: real, n: nat)
    ensures Halved(width / 2.0, n) == Halved(width, n + 1)
  {
    if n > 0 {
      HalfHalved(width, n - 1);
    }
  }

  lemma HalvedSix(width: real, n: nat)
    ensures Halved(width, n + 6) == Halved(width, n) / 64.0
  {
    assert Halved(width, n + 2) == Halved(width, n + 1) / 2.0 == Halved(width, n) / 4.0;
    assert Halved(width, n + 4) == Halved(width, n + 3) / 2.0 == Halved(width, n + 2) / 4.0;
    assert Halved(width, n + 6) == Halved(width, n + 5) / 2.0 == Halved(width, n + 4) / 4.0;
  }

  lemma HalvedEighteen(width: real)
    ensures Halved(width, 18) == width / 262144.0
  {
    HalvedSix(width, 0);
    HalvedSix(width, 6);
    HalvedSix(width, 12);
  }
}
