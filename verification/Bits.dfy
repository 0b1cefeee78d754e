/** Numbers as bits, lowest first. */
module Bits {
  import opened Radix

  /** The number with the given bits, lowest first. */
  function Pack(bits: seq<bool>): (x: nat)
    ensures x < Pow(2, |bits|)
  {
    if bits == [] then 0 else (if bits[0] then 1 else 0) + 2 * Pack(bits[1..])
  }

  /** "x & (1 << p)" is not zero. */
  predicate Bit(x: nat, p: nat) {
    if p == 0 then x % 2 == 1 else Bit(x / 2, p - 1)
  }

  lemma {:induction false} BitOfPack(bits: seq<bool>, p: nat)
    requires p < |bits|
    ensures Bit(Pack(bits), p) == bits[p]
  {
    if p > 0 {
      BitOfPack(bits[1..], p - 1);
      assert Pack(bits) / 2 == Pack(bits[1..]);
    }
  }

  lemma {:induction false} PackZero(bits: seq<bool>)
    ensures Pack(bits) == 0 <==> forall i :: 0 <= i < |bits| ==> !bits[i]
  {
    if bits != [] {
      PackZero(bits[1..]);
      if Pack(bits[1..]) != 0 {
        var i :| 0 <= i < |bits[1..]| && bits[1..][i];
        assert bits[i + 1];
      } else {
        assert forall i :: 1 <= i < |bits| ==> bits[i] == bits[1..][i - 1];
      }
    }
  }

  /** "x |= 1 << i" sets a bit above those of x. */
  lemma {:induction false} PackPlus(bits: seq<bool>, b: bool)
    ensures Pack(bits + [b]) == Pack(bits) + if b then Pow(2, |bits|) else 0
  {
    if bits == [] {
      assert bits + [b] == [b];
    } else {
      assert (bits + [b])[1..] == bits[1..] + [b];
      PackPlus(bits[1..], b);
    }
  }
}
