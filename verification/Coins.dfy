/** Unspent outputs of one transaction (CCoins, src/coins.h and src/coins.cpp). */
module Coins {
  import opened Bytes

  /** CTxOut without its memory-only nRounds. */
  datatype TxOut = TxOut(nValue: int, scriptPubKey: seq<byte>)

  /** What SetNull leaves. */
  const NULL_OUT: TxOut := TxOut(-1, [])

  predicate IsNull(out: TxOut) {
    out.nValue == -1
  }

  datatype Coins = Coins(fCoinBase: bool, fCoinStake: bool, vout: seq<TxOut>, nHeight: int, nVersion: int)

  /** CCoins(), and what Clear leaves. */
  const NO_COINS: Coins := Coins(false, false, [], 0, 0)

  /** The outputs without the null ones at the end. */
  function Trim(vout: seq<TxOut>): (r: seq<TxOut>)
    ensures |r| <= |vout| && r == vout[..|r|]
    ensures r != [] ==> !IsNull(r[|r| - 1])
    ensures forall i :: |r| <= i < |vout| ==> IsNull(vout[i])
  {
    if vout != [] && IsNull(vout[|vout| - 1]) then Trim(vout[..|vout| - 1]) else vout
  }

  /** Cleanup. */
  function Cleaned(c: Coins): Coins {
    c.(vout := Trim(c.vout))
  }

  predicate IsPruned(c: Coins) {
    forall i :: 0 <= i < |c.vout| ==> IsNull(c.vout[i])
  }

  /** No null outputs at the end: what Cleanup establishes. */
  predicate IsClean(c: Coins) {
    c.vout != [] ==> !IsNull(c.vout[|c.vout| - 1])
  }

  lemma CleanedIsClean(c: Coins)
    ensures IsClean(Cleaned(c)) && (IsClean(c) ==> Cleaned(c) == c)
    ensures IsPruned(Cleaned(c)) <==> IsPruned(c)
    ensures IsClean(c) ==> (IsPruned(c) <==> c.vout == [])
  {
    var r := Trim(c.vout);
    assert r != [] ==> !IsNull(Cleaned(c).vout[|r| - 1]);
  }

  method Cleanup(vout: seq<TxOut>) returns (r: seq<TxOut>)
    ensures r == Trim(vout)
  {
    r := vout;
    while |r| > 0 && IsNull(r[|r| - 1])
      invariant Trim(r) == Trim(vout)
      decreases |r|
    {
      r := r[..|r| - 1];
    }
  }

  // ---------------------------------------------------------------------------------------
  // Spending an output and undoing it

  /** CTxInUndo. */
  datatype Undo = Undo(txout: TxOut, fCoinBase: bool, fCoinStake: bool, nHeight: int, nVersion: int)

  /** The output at a position is there and unspent. */
  predicate Unspent(c: Coins, n: nat) {
    n < |c.vout| && !IsNull(c.vout[n])
  }

  const OP_ZEROCOINMINT: byte := 0xc1

  /** IsAvailable: unspent, and not a zerocoin mint. */
  predicate IsAvailable(c: Coins, n: nat) {
    Unspent(c, n) && !(c.vout[n].scriptPubKey != [] && c.vout[n].scriptPubKey[0] == OP_ZEROCOINMINT)
  }

  function Spent(c: Coins, n: nat): Coins
    requires Unspent(c, n)
  {
    Cleaned(c.(vout := c.vout[n := NULL_OUT]))
  }

  /** The undo data of a spend: the output, and the metadata if nothing else is left. */
  function UndoOf(c: Coins, n: nat): Undo
    requires Unspent(c, n)
  {
    if Spent(c, n).vout == [] then Undo(c.vout[n], c.fCoinBase, c.fCoinStake, c.nHeight, c.nVersion)
    else Undo(c.vout[n], false, false, 0, 0)
  }

  /** Spend fails without effect on an absent or spent output. */
  method Spend(c: Coins, n: nat) returns (ok: bool, r: Coins, undo: Undo)
    ensures ok <==> Unspent(c, n)
    ensures !ok ==> r == c
    ensures ok ==> r == Spent(c, n) && undo == UndoOf(c, n)
  {
    undo := Undo(NULL_OUT, false, false, 0, 0);
    if n >= |c.vout| || IsNull(c.vout[n]) {
      return false, c, undo;
    }
    undo := undo.(txout := c.vout[n]);
    var left := Cleanup(c.vout[n := NULL_OUT]);
    r := c.(vout := left);
    if |left| == 0 {
      undo := undo.(nHeight := c.nHeight, fCoinBase := c.fCoinBase, fCoinStake := c.fCoinStake, nVersion := c.nVersion);
    }
    return true, r, undo;
  }

  /** Spending makes exactly that output unavailable and leaves no trailing null outputs. */
  lemma SpentTakesOne(c: Coins, n: nat, i: nat)
    requires Unspent(c, n)
    ensures IsClean(Spent(c, n))
    ensures Unspent(Spent(c, n), i) <==> Unspent(c, i) && i != n
    ensures Unspent(Spent(c, n), i) ==> Spent(c, n).vout[i] == c.vout[i]
    ensures IsAvailable(Spent(c, n), i) <==> IsAvailable(c, i) && i != n
  {
    var vout := c.vout[n := NULL_OUT];
    CleanedIsClean(c.(vout := vout));
    var left := Trim(vout);
    assert Spent(c, n).vout == left;
    assert i < |left| ==> left[i] == vout[..|left|][i] == vout[i];
    assert |left| <= i < |vout| ==> IsNull(vout[i]);
  }

  /** How DisconnectBlock puts a spent output back (src/main.cpp), and whether it found nothing wrong.
      A pruned entry is the same as none, so its metadata is not there any more. */
  function Restored(c: Coins, n: nat, undo: Undo): (r: (bool, Coins)) {
    var found := if IsPruned(c) then NO_COINS else c;
    var base :=
      if undo.nHeight != 0
      then NO_COINS.(fCoinBase := undo.fCoinBase, nHeight := undo.nHeight, nVersion := undo.nVersion)
      else found;
    var grown := if |base.vout| < n + 1 then base.vout + seq(n + 1 - |base.vout|, i => NULL_OUT) else base.vout;
    (IsPruned(c) == (undo.nHeight != 0) && !IsAvailable(base, n), base.(vout := grown[n := undo.txout]))
  }

  /** It finds nothing wrong if the last output goes to coins that are spent, and any other to coins that are not, at
      a place without an output, or with one that is a zerocoin mint. The output is put there, the metadata are those
      of the undo data or of the coins, and other outputs stay. */
  lemma RestoredIs(c: Coins, n: nat, undo: Undo)
    ensures var (clean, r) := Restored(c, n, undo);
            && n < |r.vout| && r.vout[n] == undo.txout
            && if undo.nHeight != 0 then
                 && (clean <==> forall i :: 0 <= i < |c.vout| ==> IsNull(c.vout[i]))
                 && r.fCoinBase == undo.fCoinBase && r.nHeight == undo.nHeight && r.nVersion == undo.nVersion
                 && forall i :: 0 <= i < |r.vout| && i != n ==> r.vout[i] == NULL_OUT
               else
                 && (clean <==>
                       && (exists i :: 0 <= i < |c.vout| && !IsNull(c.vout[i]))
                       && (n >= |c.vout| || IsNull(c.vout[n])
                           || (c.vout[n].scriptPubKey != [] && c.vout[n].scriptPubKey[0] == 0xc1)))
                 && (clean ==>
                       && r == c.(vout := r.vout)
                       && forall i :: 0 <= i < |r.vout| && i != n ==>
                            r.vout[i] == if i < |c.vout| then c.vout[i] else NULL_OUT)
  {
  }

  /** Undo data hold the output, and all metadata just if no other output was left. */
  lemma UndoIs(c: Coins, n: nat)
    requires Unspent(c, n)
    ensures UndoOf(c, n)
            == if forall i :: 0 <= i < |c.vout| && i != n ==> IsNull(c.vout[i])
               then Undo(c.vout[n], c.fCoinBase, c.fCoinStake, c.nHeight, c.nVersion)
               else Undo(c.vout[n], false, false, 0, 0)
  {
    var d := c.(vout := c.vout[n := NULL_OUT]);
    CleanedIsClean(d);
    CleanedIsClean(Cleaned(d));
    if IsPruned(d) {
      assert forall i :: 0 <= i < |c.vout| && i != n ==> IsNull(c.vout[i]) by {
        assert forall i :: 0 <= i < |c.vout| && i != n ==> IsNull(d.vout[i]) && d.vout[i] == c.vout[i];
      }
    } else {
      var i :| 0 <= i < |d.vout| && !IsNull(d.vout[i]);
      assert i != n && !IsNull(c.vout[i]);
    }
  }

  /** Null outputs are what SetNull leaves. */
  predicate Canonical(c: Coins) {
    forall i :: 0 <= i < |c.vout| && IsNull(c.vout[i]) ==> c.vout[i] == NULL_OUT
  }

  lemma RestoredOutputs(c: Coins, n: nat)
    requires Unspent(c, n) && IsClean(c) && Canonical(c)
    ensures var left := Spent(c, n).vout;
            var grown := if |left| < n + 1 then left + seq(n + 1 - |left|, i => NULL_OUT) else left;
            grown[n := c.vout[n]] == c.vout
  {
    var vout := c.vout[n := NULL_OUT];
    var left := Trim(vout);
    if n < |c.vout| - 1 {
      assert vout[|vout| - 1] == c.vout[|vout| - 1];
      assert left == vout;
    }
    var grown := if |left| < n + 1 then left + seq(n + 1 - |left|, i => NULL_OUT) else left;
    forall i | 0 <= i < |c.vout|
      ensures grown[n := c.vout[n]][i] == c.vout[i]
    {
      if i != n && i >= |left| {
        assert IsNull(vout[i]);
      }
    }
  }

  /** Undoing a spend restores the coins without complaint unless it spent the last output of a
      coinstake, whose mark is not restored, or of a transaction at height zero. */
  lemma RestoreUndoesSpend(c: Coins, n: nat)
    requires Unspent(c, n) && IsClean(c) && Canonical(c)
    ensures Restored(Spent(c, n), n, UndoOf(c, n)) == (true, c)
            <==> (Spent(c, n).vout != [] || (c.nHeight != 0 && !c.fCoinStake))
  {
    var left := Spent(c, n);
    CleanedIsClean(c.(vout := c.vout[n := NULL_OUT]));
    CleanedIsClean(left);
    RestoredOutputs(c, n);
    SpentTakesOne(c, n, n);
  }

  /** The last output of a coinstake comes back without the mark. */
  lemma CoinstakeMarkLost()
    ensures var c := Coins(false, true, [TxOut(1, [])], 5, 1);
            && Unspent(c, 0) && IsClean(c) && Canonical(c)
            && Restored(Spent(c, 0), 0, UndoOf(c, 0)) == (true, c.(fCoinStake := false))
  {
    var c := Coins(false, true, [TxOut(1, [])], 5, 1);
    SpentTakesOne(c, 0, 0);
    RestoredOutputs(c, 0);
    assert Spent(c, 0).vout == [];
  }
}
