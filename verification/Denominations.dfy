/** The zerocoin denominations (src/libzerocoin/Denominations.h). */
module Denominations {
  import opened DivisorChain

  const COIN: nat := 100000000

  /** zerocoinDenomList. */
  const DENOM_LIST: seq<nat> := [1, 5, 10, 50, 100, 500, 1000, 5000]

  /** ZerocoinDenominationToAmount of each denomination. */
  const AMOUNTS: seq<nat> :=
    [COIN, 5 * COIN, 10 * COIN, 50 * COIN, 100 * COIN, 500 * COIN, 1000 * COIN, 5000 * COIN]

  lemma {:induction false} WorthIsProduct(n: nat, coin: nat)
    ensures Worth(n, coin) == n * coin
  {
    if n > 0 {
      WorthIsProduct(n - 1, coin);
    }
  }

  /** The zerocoin denominations form a divisor chain of multiples of a coin. */
  lemma AmountsAreChain()
    ensures Chain(AMOUNTS) && AMOUNTS[0] == COIN
    ensures forall i :: 0 <= i < |AMOUNTS| ==> AMOUNTS[i] == COIN * DENOM_LIST[i]
  {
    forall i | 1 <= i < |AMOUNTS|
      ensures Divides(AMOUNTS[i - 1], AMOUNTS[i])
    {
      WorthIsProduct(2, AMOUNTS[i - 1]);
      WorthIsProduct(5, AMOUNTS[i - 1]);
      assert 5 * AMOUNTS[i - 1] == AMOUNTS[i] || 2 * AMOUNTS[i - 1] == AMOUNTS[i];
    }
  }
}
