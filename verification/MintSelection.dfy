/** The loops of src/denomination_functions.cpp, each proved to make the selection that
    CoinSelection.dfy describes, and the selection of mints from a wallet list.

    The denomination amounts `d` are any divisor chain; Denominations.dfy shows that those of the
    program are one.

    A do/while loop whose body repeats its own condition is written as a while loop. seq<nat> and
    amounts are unbounded.
*/
module MintSelection {
  import opened DivisorChain
  import opened CoinSelection

  /** CMintMeta, as far as selection looks at it. */
  datatype MintMeta = MintMeta(hashSerial: int, denom: int, isUsed: bool)

  /** The mint can be spent as a coin of the i-th denomination. */
  predicate Usable(mint: MintMeta, i: nat) {
    !mint.isUsed && mint.denom == i
  }

  function CountUsable(mints: seq<MintMeta>, i: nat): nat {
    if mints == [] then 0 else
    var last := |mints| - 1;
    CountUsable(mints[..last], i) + if Usable(mints[last], i) then 1 else 0
  }

  /** The counts of the mints in a list that are not yet used. */
  function Stock(d: seq<nat>, mints: seq<MintMeta>): (r: seq<nat>)
    ensures Whole(d, r)
    ensures forall i :: 0 <= i < |d| ==> r[i] == CountUsable(mints, i)
  {
    seq(|d|, i requires 0 <= i < |d| => CountUsable(mints, i))
  }

  /** The first n usable mints of the i-th denomination. */
  function FirstOf(mints: seq<MintMeta>, i: nat, n: nat): (r: seq<MintMeta>)
    ensures |r| <= n
  {
    if mints == [] then [] else
    var last := |mints| - 1;
    var r := FirstOf(mints[..last], i, n);
    if Usable(mints[last], i) && |r| < n then r + [mints[last]] else r
  }

  /** Going over the list again and again for n usable mints of the i-th denomination, if it has one. */
  function Repeated(mints: seq<MintMeta>, i: nat, n: nat): seq<MintMeta>
    decreases n
  {
    var all := CountUsable(mints, i);
    if n <= all || all == 0 then FirstOf(mints, i, n) else FirstOf(mints, i, all) + Repeated(mints, i, n - all)
  }

  /** What is left of n after k passes over the list. */
  function LeftAfter(mints: seq<MintMeta>, i: nat, n: nat, k: nat): nat {
    if k == 0 then n else
    var left := LeftAfter(mints, i, n, k - 1);
    left - |FirstOf(mints, i, left)|
  }

  /** Every denomination that is asked for has a usable mint. */
  predicate Served(d: seq<nat>, mints: seq<MintMeta>, wanted: seq<nat>) {
    Whole(d, wanted) && forall i :: 0 <= i < |d| && wanted[i] > 0 ==> CountUsable(mints, i) > 0
  }

  /** The mints getSpends returns for the denominations from position i up, largest first. */
  function SpendsFrom(d: seq<nat>, mints: seq<MintMeta>, used: seq<nat>, i: nat): seq<MintMeta>
    requires Whole(d, used) && i <= |d|
    decreases |d| - i
  {
    if i == |d| then [] else SpendsFrom(d, mints, used, i + 1) + Repeated(mints, i, used[i])
  }

  /** The value of a list of mints. */
  function SumValue(d: seq<nat>, mints: seq<MintMeta>): nat {
    if mints == [] then 0 else
    var last := |mints| - 1;
    SumValue(d, mints[..last]) + if 0 <= mints[last].denom < |d| then d[mints[last].denom] else 0
  }

  // ---------------------------------------------------------------------------------------
  // Properties of the selected mints

  lemma {:induction false} FirstOfCount(mints: seq<MintMeta>, i: nat, n: nat)
    ensures |FirstOf(mints, i, n)| == Min(n, CountUsable(mints, i))
    ensures forall m :: m in FirstOf(mints, i, n) ==> Usable(m, i)
  {
    if mints != [] {
      FirstOfCount(mints[..|mints| - 1], i, n);
    }
  }

  lemma {:induction false} SumOfOneKind(d: seq<nat>, mints: seq<MintMeta>, i: nat)
    requires i < |d| && forall m :: m in mints ==> Usable(m, i)
    ensures SumValue(d, mints) == Worth(|mints|, d[i])
  {
    if mints != [] {
      SumOfOneKind(d, mints[..|mints| - 1], i);
      assert mints[|mints| - 1] in mints;
    }
  }

  lemma {:induction false} SumValuePlus(d: seq<nat>, a: seq<MintMeta>, b: seq<MintMeta>)
    ensures SumValue(d, a + b) == SumValue(d, a) + SumValue(d, b)
    decreases |b|
  {
    if b == [] {
      assert a + b == a;
    } else {
      var last := |b| - 1;
      SumValuePlus(d, a, b[..last]);
      assert (a + b)[..|a + b| - 1] == a + b[..last];
    }
  }

  lemma {:induction false} FirstOfListed(mints: seq<MintMeta>, i: nat, n: nat)
    ensures forall m :: m in FirstOf(mints, i, n) ==> m in mints
  {
    if mints != [] {
      FirstOfListed(mints[..|mints| - 1], i, n);
    }
  }

  /** Asking for more than there is gives all there is. */
  lemma {:induction false} FirstOfAll(mints: seq<MintMeta>, i: nat, n: nat)
    requires CountUsable(mints, i) <= n
    ensures FirstOf(mints, i, n) == FirstOf(mints, i, CountUsable(mints, i))
  {
    if mints != [] {
      var front := mints[..|mints| - 1];
      FirstOfAll(front, i, n);
      FirstOfAll(front, i, CountUsable(mints, i));
      FirstOfCount(front, i, n);
    }
  }

  lemma {:induction false} RepeatedIs(mints: seq<MintMeta>, i: nat, n: nat)
    requires n > 0 ==> CountUsable(mints, i) > 0
    ensures |Repeated(mints, i, n)| == n
    ensures forall m :: m in Repeated(mints, i, n) ==> Usable(m, i) && m in mints
    decreases n
  {
    var all := CountUsable(mints, i);
    FirstOfCount(mints, i, Min(n, all));
    FirstOfListed(mints, i, Min(n, all));
    if n > all {
      RepeatedIs(mints, i, n - all);
    }
  }

  lemma TotalSteps(d: seq<nat>, mints: seq<MintMeta>, used: seq<nat>, i: nat)
    requires Whole(d, used) && i <= |d|
    ensures SpendsFrom(d, mints, used, |d|) == [] && SumValue(d, []) == 0
    ensures i < |d| ==>
              && Value(d, used, i + 1) == Value(d, used, i) + Worth(used[i], d[i])
              && NumCoins(used, i + 1) == NumCoins(used, i) + used[i]
              && SpendsFrom(d, mints, used, i) == SpendsFrom(d, mints, used, i + 1) + Repeated(mints, i, used[i])
  {
  }

  /** Value and number of the mints selected from the largest denomination down to position i. */
  lemma {:induction false} SpendsTotal(d: seq<nat>, mints: seq<MintMeta>, used: seq<nat>, i: nat)
    requires i <= |d| && Served(d, mints, used)
    ensures SumValue(d, SpendsFrom(d, mints, used, i)) + Value(d, used, i) == Total(d, used)
    ensures |SpendsFrom(d, mints, used, i)| + NumCoins(used, i) == Size(used)
    ensures forall m :: m in SpendsFrom(d, mints, used, i) ==> m in mints && !m.isUsed
    decreases |d| - i
  {
    hide Repeated, CountUsable, Worth, NumCoins, Value, SumValue, SpendsFrom;
    TotalSteps(d, mints, used, i);
    if i < |d| {
      SpendsTotal(d, mints, used, i + 1);
      RepeatedIs(mints, i, used[i]);
      SumOfOneKind(d, Repeated(mints, i, used[i]), i);
      SumValuePlus(d, SpendsFrom(d, mints, used, i + 1), Repeated(mints, i, used[i]));
    }
  }

  lemma {:induction false} FirstOfOccurs(mints: seq<MintMeta>, i: nat, n: nat, m: MintMeta)
    ensures multiset(FirstOf(mints, i, n))[m] <= if Usable(m, i) then multiset(mints)[m] else 0
  {
    if mints != [] {
      var last := |mints| - 1;
      FirstOfOccurs(mints[..last], i, n, m);
      assert mints == mints[..last] + [mints[last]];
    }
  }

  lemma {:induction false} SpendsOccur(d: seq<nat>, mints: seq<MintMeta>, used: seq<nat>, i: nat, m: MintMeta)
    requires Held(used, Stock(d, mints)) && i <= |d|
    ensures multiset(SpendsFrom(d, mints, used, i))[m]
            <= if !m.isUsed && i <= m.denom then multiset(mints)[m] else 0
    decreases |d| - i
  {
    hide FirstOf, CountUsable;
    if i < |d| {
      SpendsOccur(d, mints, used, i + 1, m);
      FirstOfOccurs(mints, i, used[i], m);
      assert Repeated(mints, i, used[i]) == FirstOf(mints, i, used[i]);
    }
  }

  /** No list entry is selected twice, and none that is already used. */
  predicate DistinctUnused(selected: seq<MintMeta>, mints: seq<MintMeta>) {
    && multiset(selected) <= multiset(mints)
    && forall m :: m in selected ==> !m.isUsed
  }

  lemma {:induction false} CountUsablePlus(a: seq<MintMeta>, b: seq<MintMeta>, i: nat)
    ensures CountUsable(a + b, i) == CountUsable(a, i) + CountUsable(b, i)
    decreases |b|
  {
    if b == [] {
      assert a + b == a;
    } else {
      CountUsablePlus(a, b[..|b| - 1], i);
      assert (a + b)[..|a + b| - 1] == a + b[..|b| - 1];
    }
  }

  lemma {:induction false} CountOfOneKind(mints: seq<MintMeta>, kind: nat, i: nat)
    requires forall m :: m in mints ==> Usable(m, kind)
    ensures CountUsable(mints, i) == if i == kind then |mints| else 0
  {
    if mints != [] {
      CountOfOneKind(mints[..|mints| - 1], kind, i);
      assert mints[|mints| - 1] in mints;
    }
  }

  /** Of each denomination as many mints are selected as are asked for. */
  lemma {:induction false} SpendsCount(d: seq<nat>, mints: seq<MintMeta>, used: seq<nat>, from: nat, i: nat)
    requires from <= |d| && i < |d| && Served(d, mints, used)
    ensures CountUsable(SpendsFrom(d, mints, used, from), i) == if from <= i then used[i] else 0
    decreases |d| - from
  {
    if from < |d| {
      SpendsCount(d, mints, used, from + 1, i);
      RepeatedIs(mints, from, used[from]);
      CountOfOneKind(Repeated(mints, from, used[from]), from, i);
      CountUsablePlus(SpendsFrom(d, mints, used, from + 1), Repeated(mints, from, used[from]), i);
    }
  }

  lemma TakeOut(mints: seq<MintMeta>, m: MintMeta, i: nat) returns (rest: seq<MintMeta>)
    requires m in mints
    ensures multiset(mints) == multiset(rest) + multiset{m}
    ensures CountUsable(mints, i) == CountUsable(rest, i) + if Usable(m, i) then 1 else 0
  {
    var k :| 0 <= k < |mints| && mints[k] == m;
    rest := mints[..k] + mints[k + 1..];
    assert mints == mints[..k] + [m] + mints[k + 1..];
    CountUsablePlus(mints[..k], mints[k + 1..], i);
    CountUsablePlus(mints[..k] + [m], mints[k + 1..], i);
    assert (mints[..k] + [m])[..k] == mints[..k];
  }

  /** Part of a list has no more usable mints than the list. */
  lemma {:induction false} CountUsablePart(part: seq<MintMeta>, mints: seq<MintMeta>, i: nat)
    requires multiset(part) <= multiset(mints)
    ensures CountUsable(part, i) <= CountUsable(mints, i)
  {
    if part != [] {
      var front, m := part[..|part| - 1], part[|part| - 1];
      assert part == front + [m];
      assert m in multiset(mints);
      var rest := TakeOut(mints, m, i);
      forall x
        ensures multiset(front)[x] <= multiset(rest)[x]
      {
        assert multiset(part)[x] <= multiset(mints)[x];
      }
      CountUsablePart(front, rest, i);
    }
  }

  /** The mints picked are distinct unused entries of the list just if no more are asked for than it has. */
  lemma SpendsAreDistinct(d: seq<nat>, mints: seq<MintMeta>, used: seq<nat>)
    requires Served(d, mints, used)
    ensures DistinctUnused(SpendsFrom(d, mints, used, 0), mints) <==> Held(used, Stock(d, mints))
  {
    var selected := SpendsFrom(d, mints, used, 0);
    SpendsTotal(d, mints, used, 0);
    if Held(used, Stock(d, mints)) {
      forall m
        ensures multiset(selected)[m] <= multiset(mints)[m]
      {
        SpendsOccur(d, mints, used, 0, m);
      }
    }
    if DistinctUnused(selected, mints) {
      forall i | 0 <= i < |d|
        ensures used[i] <= Stock(d, mints)[i]
      {
        SpendsCount(d, mints, used, 0, i);
        CountUsablePart(selected, mints, i);
      }
    }
  }

  /** Asked for two, a list of one usable mint gives the same mint twice. */
  lemma PickedTwice(mint: MintMeta)
    requires Usable(mint, 0)
    ensures Served([1], [mint], [2]) && SpendsFrom([1], [mint], [2], 0) == [mint, mint]
    ensures !DistinctUnused([mint, mint], [mint])
  {
    assert [mint][..0] == [];
    assert CountUsable([mint], 0) == 1;
    assert FirstOf([mint], 0, 1) == [mint];
    assert Repeated([mint], 0, 2) == [mint] + Repeated([mint], 0, 1) == [mint, mint];
    assert SpendsFrom([1], [mint], [2], 1) == [];
    assert multiset([mint, mint])[mint] == 2 && multiset([mint])[mint] == 1;
  }

  lemma {:induction false} LeftAfterPasses(mints: seq<MintMeta>, i: nat, n: nat, k: nat)
    ensures CountUsable(mints, i) == 0 ==> LeftAfter(mints, i, n, k) == n
    ensures CountUsable(mints, i) > 0 ==> LeftAfter(mints, i, n, k) <= if k <= n then n - k else 0
  {
    if k > 0 {
      LeftAfterPasses(mints, i, n, k - 1);
      FirstOfCount(mints, i, LeftAfter(mints, i, n, k - 1));
    }
  }

  /** The do/while loop for one denomination ends after some number of passes. */
  ghost predicate PassesEnd(mints: seq<MintMeta>, i: nat, n: nat) {
    exists k: nat :: k >= 1 && LeftAfter(mints, i, n, k) == 0
  }

  lemma PassesEndWhere(mints: seq<MintMeta>, i: nat, n: nat)
    ensures PassesEnd(mints, i, n) <==> (n > 0 ==> CountUsable(mints, i) > 0)
  {
    if n > 0 && CountUsable(mints, i) == 0 {
      forall k: nat
        ensures LeftAfter(mints, i, n, k) > 0
      {
        LeftAfterPasses(mints, i, n, k);
      }
    } else {
      LeftAfterPasses(mints, i, n, n + 1);
      assert LeftAfter(mints, i, n, n + 1) == 0;
    }
  }

  /** All loops of getSpends end just if every denomination that is asked for has a usable mint. */
  lemma SpendsEnd(d: seq<nat>, mints: seq<MintMeta>, wanted: seq<nat>)
    requires Whole(d, wanted)
    ensures (forall i :: 0 <= i < |d| ==> PassesEnd(mints, i, wanted[i])) <==> Served(d, mints, wanted)
  {
    hide PassesEnd;
    forall i | 0 <= i < |d|
      ensures PassesEnd(mints, i, wanted[i]) <==> (wanted[i] > 0 ==> CountUsable(mints, i) > 0)
    {
      PassesEndWhere(mints, i, wanted[i]);
    }
  }

  lemma {:induction false} CountUsablePrefix(mints: seq<MintMeta>, n: nat, i: nat)
    requires n <= |mints|
    ensures CountUsable(mints[..n], i) <= CountUsable(mints, i)
  {
    if n == |mints| {
      assert mints[..n] == mints;
    } else {
      var last := |mints| - 1;
      CountUsablePrefix(mints[..last], n, i);
      assert mints[..last][..n] == mints[..n];
    }
  }

  // ---------------------------------------------------------------------------------------
  // getSpendCoins, getChange, getIdealSpends

  /** Loop invariant of the greedy loops: the denominations from position i up are settled. */
  ghost predicate Settled(d: seq<nat>, target: int, held: seq<nat>, remaining: int, used: seq<nat>, i: nat)
    requires Whole(d, held) && i <= |d|
  {
    && Whole(d, used) && remaining == target - Total(d, used)
    && (forall j :: 0 <= j < i ==> used[j] == 0)
    && Spend(d, target, held) == Greedy(d, remaining, held, i) + used[i..]
  }

  lemma SettledAll(d: seq<nat>, target: int, held: seq<nat>, remaining: int, used: seq<nat>)
    requires Whole(d, held) && Settled(d, target, held, remaining, used, 0)
    ensures Whole(d, used) && used == Spend(d, target, held) && remaining == target - Total(d, used)
  {
    assert used[0..] == used;
  }

  lemma SettleNone(d: seq<nat>, target: int, held: seq<nat>)
    requires Whole(d, held)
    ensures Settled(d, target, held, target, NoCoins(d), |d|)
  {
    NothingIsNothing(d, NoCoins(d), |d|);
  }

  lemma SettleOne(d: seq<nat>, target: int, held: seq<nat>, before: int, base: seq<nat>, i: nat, count: nat)
    requires Whole(d, held) && i < |d| && Settled(d, target, held, before, base, i + 1)
    requires count == Take(before, held[i], d[i])
    ensures Settled(d, target, held, before - Worth(count, d[i]), base[i := count], i)
  {
    ValueSet(d, base, i, count, |d|);
    assert base[i := count][i..] == [count] + base[i + 1..];
  }

  lemma SettleSkip(d: seq<nat>, target: int, held: seq<nat>, before: int, base: seq<nat>, i: nat)
    requires Whole(d, held) && i < |d| && Settled(d, target, held, before, base, i + 1)
    requires held[i] == 0
    ensures Settled(d, target, held, before, base, i)
  {
    SettleOne(d, target, held, before, base, i, 0);
    assert base[i := 0] == base;
  }

  /** Inner loop of getSpendCoins: coins of one denomination, while held and not too large. */
  method TakeHeld(before: int, available: nat, value: nat) returns (count: nat, remaining: int)
    requires 0 < value
    ensures count == Take(before, available, value) && remaining == before - Worth(count, value)
  {
    count, remaining := 0, before;
    while remaining >= value && count < available
      invariant count <= available && (count > 0 ==> 0 <= remaining)
      invariant remaining == before - Worth(count, value)
      decreases available - count
    {
      count := count + 1;
      remaining := remaining - value;
    }
    TakeIs(before, available, value, count);
  }

  method GetSpendCoins(d: seq<nat>, target: int, held: seq<nat>) returns (used: seq<nat>)
    requires Chain(d) && Whole(d, held)
    ensures used == Spend(d, target, held)
  {
    hide Settled, Spend, NoCoins, Take, Total;
    used := NoCoins(d);
    var remaining := target;
    SettleNone(d, target, held);
    for i := |d| downto 0
      invariant Whole(d, used) && Settled(d, target, held, remaining, used, i)
    {
      var count, rest := TakeHeld(remaining, held[i], d[i]);
      SettleOne(d, target, held, remaining, used, i, count);
      used, remaining := used[i := count], rest;
    }
    SettledAll(d, target, held, remaining, used);
  }

  /** Inner loop of getChange: coins of one denomination, while not too large. */
  method TakeAny(before: int, value: nat, ghost ample: nat) returns (count: nat, remaining: int)
    requires 0 < value && before <= ample
    ensures count == Take(before, ample, value)
    ensures remaining == before - Worth(count, value) <= before
  {
    count, remaining := 0, before;
    while remaining >= value
      invariant count > 0 ==> 0 <= remaining && remaining + count <= ample
      invariant remaining == before - Worth(count, value) <= before
    {
      count := count + 1;
      remaining := remaining - value;
    }
    TakeIs(before, ample, value, count);
  }

  /** getChange, as greedy selection from any stock that cannot run out. */
  method ChangeFrom(d: seq<nat>, target: int, ghost ample: seq<nat>) returns (change: seq<nat>)
    requires Chain(d) && Whole(d, ample) && forall i :: 0 <= i < |d| ==> target <= ample[i]
    ensures change == Spend(d, target, ample)
  {
    hide Settled, Spend, NoCoins, Take, Total;
    change := NoCoins(d);
    var remaining := target;
    SettleNone(d, target, ample);
    for i := |d| downto 0
      invariant remaining <= target && Whole(d, change) && Settled(d, target, ample, remaining, change, i)
    {
      var count, rest := TakeAny(remaining, d[i], ample[i]);
      SettleOne(d, target, ample, remaining, change, i, count);
      change, remaining := change[i := count], rest;
    }
    SettledAll(d, target, ample, remaining, change);
  }

  method GetChange(d: seq<nat>, target: int) returns (change: seq<nat>)
    requires Chain(d)
    ensures change == Change(d, target)
  {
    change := ChangeFrom(d, target, AmpleStock(d, target));
  }

  /** Inner loop of getIdealSpends: unused mints of one denomination, while not too large. */
  method TakeMints(before: int, mints: seq<MintMeta>, i: nat, value: nat) returns (count: nat, remaining: int)
    requires 0 < value
    ensures count == Take(before, CountUsable(mints, i), value) && remaining == before - Worth(count, value)
  {
    count, remaining := 0, before;
    var n := 0;
    while n < |mints|
      invariant 0 <= n <= |mints| && count <= CountUsable(mints[..n], i)
      invariant count < CountUsable(mints[..n], i) ==> remaining < value
      invariant count > 0 ==> 0 <= remaining
      invariant remaining == before - Worth(count, value)
    {
      var mint := mints[n];
      assert mints[..n + 1][..n] == mints[..n];
      n := n + 1;
      if mint.isUsed {
        continue;
      }
      if remaining >= value && i == mint.denom {
        count := count + 1;
        remaining := remaining - value;
      }
      if remaining < value {
        break;
      }
    }
    CountUsablePrefix(mints, n, i);
    assert n == |mints| ==> mints[..n] == mints;
    TakeIs(before, CountUsable(mints, i), value, count);
  }

  /** getIdealSpends succeeds if and only if the unused mints can pay the target exactly; it then
      does so with the fewest coins, by SpendIsOptimal. */
  method GetIdealSpends(d: seq<nat>, target: int, mints: seq<MintMeta>) returns (ok: bool, used: seq<nat>)
    requires Chain(d)
    ensures used == Spend(d, target, Stock(d, mints))
    ensures ok <==> Payable(d, target, Stock(d, mints))
    ensures ok ==> Total(d, used) == target
  {
    hide Settled, Spend, NoCoins, Take, Total, CountUsable, Payable;
    used := NoCoins(d);
    var remaining := target;
    ghost var held := Stock(d, mints);
    SettleNone(d, target, held);
    for i := |d| downto 0
      invariant Whole(d, used) && Settled(d, target, held, remaining, used, i)
    {
      var count, rest := TakeMints(remaining, mints, i, d[i]);
      SettleOne(d, target, held, remaining, used, i, count);
      used, remaining := used[i := count], rest;
    }
    ok := remaining == 0;
    SettledAll(d, target, held, remaining, used);
    SpendDecidesPayable(d, target, held);
  }

  // ---------------------------------------------------------------------------------------
  // getNumberOfCoinsUsed, getNextLowerDenomHeld, getMaxDenomHeld

  method GetNumberOfCoinsUsed(c: seq<nat>) returns (n: nat)
    ensures n == Size(c)
  {
    n := 0;
    for i := 0 to |c|
      invariant n == NumCoins(c, i)
    {
      n := n + c[i];
    }
  }

  /** The largest held denomination below another; below no denomination when i is their number. */
  method GetNextLowerDenomHeld(i: nat, held: seq<nat>) returns (lower: int)
    requires i <= |held|
    ensures lower == LargestHeldBelow(held, i)
  {
    lower := -1;
    for j := i downto 0
      invariant LargestHeldBelow(held, i) == LargestHeldBelow(held, j)
    {
      if held[j] != 0 {
        return j;
      }
    }
  }

  // ---------------------------------------------------------------------------------------
  // minimizeChange

  /** Coins of one denomination, while held and strictly less than what remains. */
  method TakeBelow(before: int, available: nat, value: nat) returns (count: nat, remaining: int)
    requires 0 < value
    ensures count == Take(before - 1, available, value) && remaining == before - Worth(count, value)
  {
    count, remaining := 0, before;
    while remaining > value && count < available
      invariant count <= available && (count > 0 ==> 0 < remaining)
      invariant remaining == before - Worth(count, value)
      decreases available - count
    {
      count := count + 1;
      remaining := remaining - value;
    }
    TakeIs(before - 1, available, value, count);
  }

  /** One denomination of the first stage, skipped above the limit. */
  method BelowStep(d: seq<nat>, target: int, held: seq<nat>, limit: int, ghost stock: seq<nat>,
                   before: seq<nat>, left: int, i: nat) returns (used: seq<nat>, remaining: int)
    requires Chain(d) && Whole(d, held) && Whole(d, stock) && i < |d|
    requires stock[i] == if i <= limit then held[i] else 0
    requires Settled(d, target - 1, stock, left - 1, before, i + 1)
    ensures Settled(d, target - 1, stock, remaining - 1, used, i)
  {
    if i <= limit {
      var count, rest := TakeBelow(left, held[i], d[i]);
      SettleOne(d, target - 1, stock, left - 1, before, i, count);
      used, remaining := before[i := count], rest;
    } else {
      SettleSkip(d, target - 1, stock, left - 1, before, i);
      used, remaining := before, left;
    }
  }

  /** The first stage, as greedy selection from the stock up to the limit. */
  method StayBelowFrom(d: seq<nat>, target: int, held: seq<nat>, limit: int, ghost stock: seq<nat>)
    returns (used: seq<nat>, remaining: int)
    requires Chain(d) && Whole(d, held) && Whole(d, stock)
    requires forall i :: 0 <= i < |d| ==> stock[i] == if i <= limit then held[i] else 0
    ensures used == Spend(d, target - 1, stock) && remaining == target - Total(d, used)
  {
    hide Settled, Spend, NoCoins, Total;
    used, remaining := NoCoins(d), target;
    SettleNone(d, target - 1, stock);
    for i := |d| downto 0
      invariant Settled(d, target - 1, stock, remaining - 1, used, i)
    {
      used, remaining := BelowStep(d, target, held, limit, stock, used, remaining, i);
    }
    SettledAll(d, target - 1, stock, remaining - 1, used);
  }

  method StayBelow(d: seq<nat>, target: int, held: seq<nat>, limit: int) returns (used: seq<nat>, remaining: int)
    requires Chain(d) && Whole(d, held)
    ensures Whole(d, used)
    ensures used == BelowTarget(d, target, held, limit) && remaining == target - Total(d, used)
  {
    used, remaining := StayBelowFrom(d, target, held, limit, UpTo(held, limit));
  }

  method TopUp(d: seq<nat>, below: seq<nat>, held: seq<nat>, left: int) returns (used: seq<nat>, remaining: int)
    requires Chain(d) && Whole(d, below) && Whole(d, held)
    ensures Whole(d, used)
    ensures used == ToppedUp(d, below, held, left) && remaining == left - (Total(d, used) - Total(d, below))
  {
    used, remaining := below, left;
    for i := 0 to |d|
      invariant used == below && remaining == left
      invariant TopUpCoin(d, below, held, left, 0) == TopUpCoin(d, below, held, left, i)
    {
      if d[i] > remaining && used[i] < held[i] {
        ValueBump(d, used, i, |d|);
        used := used[i := used[i] + 1];
        remaining := remaining - d[i];
      }
      if remaining < 0 {
        break;
      }
    }
  }

  method RemoveOverlap(d: seq<nat>, spent: seq<nat>, change: seq<nat>, spentAmount: nat)
      returns (used: seq<nat>, amountUsed: int)
    requires Whole(d, spent) && Whole(d, change) && spentAmount == Total(d, spent)
    ensures Whole(d, used)
    ensures used == WithoutOverlap(spent, change) && amountUsed == Total(d, used)
  {
    used, amountUsed := spent, spentAmount;
    for i := 0 to |d|
      invariant Whole(d, used) && amountUsed == Total(d, used)
      invariant forall j :: 0 <= j < i ==> used[j] == spent[j] - Min(spent[j], change[j])
      invariant forall j :: i <= j < |d| ==> used[j] == spent[j]
    {
      ghost var base := used;
      var left := change[i];
      while left > 0 && used[i] > 0
        invariant Whole(d, used) && used == base[i := used[i]] && left <= change[i]
        invariant spent[i] == used[i] + (change[i] - left)
        invariant amountUsed == Total(d, used)
      {
        ghost var more := used;
        used := used[i := used[i] - 1];
        assert more == used[i := used[i] + 1];
        ValueBump(d, used, i, |d|);
        left := left - 1;
        amountUsed := amountUsed - d[i];
      }
    }
  }

  /** The stages of minimizeChange. */
  method FindAlternative(d: seq<nat>, limit: int, target: int, held: seq<nat>)
    returns (used: seq<nat>, amountUsed: int)
    requires Chain(d) && Whole(d, held)
    ensures used == Alternative(d, target, held, limit) && amountUsed == Total(d, used)
  {
    var remaining;
    used, remaining := StayBelow(d, target, held, limit);
    used, remaining := TopUp(d, used, held, remaining);
    amountUsed := target - remaining;
    var change := GetChange(d, amountUsed - target);
    used, amountUsed := RemoveOverlap(d, used, change, amountUsed);
    AlternativeMeetsAmount(d, target, held, limit);
    used := GetSpendCoins(d, amountUsed, held);
  }

  method MinimizeChange(d: seq<nat>, maxSpends: int, changeCount: int, limit: int, target: int,
                        held: seq<nat>, saved: seq<nat>) returns (count: int, used: seq<nat>)
    requires Chain(d) && Whole(d, held) && Whole(d, saved)
    ensures (count, used) == Minimized(d, maxSpends, changeCount, limit, target, held, saved)
  {
    var amountUsed;
    used, amountUsed := FindAlternative(d, limit, target, held);
    var coinCount := GetNumberOfCoinsUsed(used);
    var change := GetChange(d, amountUsed - target);
    var otherCount := GetNumberOfCoinsUsed(change);
    if otherCount < changeCount && coinCount <= maxSpends {
      return otherCount, used;
    } else {
      return changeCount, saved;
    }
  }

  // ---------------------------------------------------------------------------------------
  // calculateChange

  /** Loop invariant of the last resort: the denominations from position i up are settled. */
  ghost predicate Covering(d: seq<nat>, target: int, held: seq<nat>, remaining: int, used: seq<nat>, i: nat)
    requires Whole(d, held) && i <= |d|
  {
    && Whole(d, used) && remaining == target - Total(d, used)
    && (forall j :: 0 <= j < i ==> used[j] == 0)
    && Cover(d, target, held, |d|) == Cover(d, remaining, held, i) + used[i..]
  }

  lemma CoverOne(d: seq<nat>, target: int, held: seq<nat>, before: int, base: seq<nat>, i: nat, count: nat)
    requires Whole(d, held) && i < |d| && Covering(d, target, held, before, base, i + 1)
    requires count == CoverTake(before, held[i], d[i])
    ensures Covering(d, target, held, before - Worth(count, d[i]), base[i := count], i)
    ensures Size(base[i := count]) == Size(base) + count
  {
    ValueSet(d, base, i, count, |d|);
    assert base[i := count][i..] == [count] + base[i + 1..];
  }

  method CoverTarget(d: seq<nat>, target: int, held: seq<nat>) returns (used: seq<nat>, amountUsed: int, coinCount: nat)
    requires Chain(d) && Whole(d, held)
    ensures Whole(d, used)
    ensures used == Cover(d, target, held, |d|)
    ensures amountUsed == Total(d, used) && coinCount == Size(used)
  {
    hide Covering, Cover, CoverTake, Total, Size, NoCoins, Worth;
    used, amountUsed, coinCount := NoCoins(d), 0, 0;
    var remaining := target;
    CoverNone(d, target, held);
    var i := |d|;
    while i > 0
      invariant 0 <= i <= |d| && Whole(d, used) && Covering(d, target, held, remaining, used, i)
      invariant amountUsed == target - remaining && coinCount == Size(used)
    {
      i := i - 1;
      var count, rest := TakeToCover(remaining, held[i], d[i]);
      CoverOne(d, target, held, remaining, used, i, count);
      used, coinCount := used[i := count], coinCount + count;
      amountUsed := amountUsed + (remaining - rest);
      remaining := rest;
      if remaining < 0 {
        break;
      }
    }
    CoveredAll(d, target, held, remaining, used, i);
  }

  lemma CoverNone(d: seq<nat>, target: int, held: seq<nat>)
    requires Whole(d, held)
    ensures Covering(d, target, held, target, NoCoins(d), |d|) && Size(NoCoins(d)) == 0
  {
    NothingIsNothing(d, NoCoins(d), |d|);
  }

  lemma CoveredAll(d: seq<nat>, target: int, held: seq<nat>, remaining: int, used: seq<nat>, i: nat)
    requires Whole(d, held) && i <= |d| && Covering(d, target, held, remaining, used, i)
    requires i > 0 ==> remaining < 0
    ensures Whole(d, used) && used == Cover(d, target, held, |d|) && remaining == target - Total(d, used)
  {
    CoverOfNothing(d, remaining, held, i);
    assert used == used[..i] + used[i..];
  }

  lemma {:induction false} CoverOfNothing(d: seq<nat>, target: int, held: seq<nat>, k: nat)
    requires k <= |d| && k <= |held|
    ensures target <= 0 ==> forall j :: 0 <= j < k ==> Cover(d, target, held, k)[j] == 0
  {
    if k > 0 {
      CoverOfNothing(d, target, held, k - 1);
    }
  }

  /** Coins of one denomination, while held and something remains. */
  method TakeToCover(before: int, available: nat, value: nat) returns (count: nat, remaining: int)
    requires 0 < value
    ensures count == CoverTake(before, available, value) && remaining == before - Worth(count, value)
  {
    count, remaining := 0, before;
    while remaining > 0 && count < available
      invariant count <= available
      invariant remaining == before - Worth(count, value)
      invariant count + CoverTake(remaining, available - count, value) == CoverTake(before, available, value)
      decreases available - count
    {
      count := count + 1;
      remaining := remaining - value;
    }
  }

  method FindSingleCoin(d: seq<nat>, target: int, held: seq<nat>) returns (i: nat)
    requires Whole(d, held)
    ensures i == SingleCoinOver(d, target, held, 0)
  {
    for j := 0 to |d|
      invariant SingleCoinOver(d, target, held, 0) == SingleCoinOver(d, target, held, j)
    {
      if target < d[j] && held[j] != 0 {
        return j;
      }
    }
    return |d|;
  }

  method ChangeFromSingle(d: seq<nat>, maxSpends: int, minimize: bool, target: int, held: seq<nat>, single: nat)
    returns (count: int, used: seq<nat>)
    requires Chain(d) && Whole(d, held) && single < |d|
    ensures (count, used) == FromSingle(d, maxSpends, minimize, target, held, single)
  {
    OneCoinTotal(d, single);
    used := NoCoins(d)[single := 1];
    var change := GetChange(d, d[single] - target);
    count := GetNumberOfCoinsUsed(change);
    if minimize {
      var limit := GetNextLowerDenomHeld(single, held);
      var newCount, newUsed := MinimizeChange(d, maxSpends, count, limit, target, held, used);
      if newCount < count {
        return newCount, newUsed;
      }
    }
  }

  method ChangeFromCover(d: seq<nat>, maxSpends: int, minimize: bool, target: int, held: seq<nat>)
    returns (count: int, used: seq<nat>)
    requires Chain(d) && Whole(d, held)
    ensures (count, used) == FromCover(d, maxSpends, minimize, target, held)
  {
    var amountUsed, coinCount;
    used, amountUsed, coinCount := CoverTarget(d, target, held);
    var change := GetChange(d, amountUsed - target);
    count := GetNumberOfCoinsUsed(change);
    var limit := GetNextLowerDenomHeld(|d|, held);
    var newCount, newUsed := MinimizeChange(d, maxSpends, count, limit, target, held, used);
    var spends := GetNumberOfCoinsUsed(newUsed);
    if !minimize && coinCount < spends {
      return;
    }
    count, used := newCount, newUsed;
  }

  method CalculateChange(d: seq<nat>, maxSpends: int, minimize: bool, target: int, held: seq<nat>)
    returns (count: int, used: seq<nat>)
    requires Chain(d) && Whole(d, held)
    ensures (count, used) == Calculated(d, maxSpends, minimize, target, held)
    ensures 0 <= count
    ensures 0 < count ==> GivesChange(d, count, used, target, held)
    ensures ChoosesSingle(d, maxSpends, minimize, target, held, count, used)
    ensures ChoosesCover(d, maxSpends, minimize, target, held, count, used)
  {
    hide ChoosesSingle, ChoosesCover, FromSingle, FromCover, GivesChange;
    CalculatedIsSound(d, maxSpends, minimize, target, held);
    CalculatedChooses(d, maxSpends, minimize, target, held);
    var single := FindSingleCoin(d, target, held);
    if single < |d| {
      count, used := ChangeFromSingle(d, maxSpends, minimize, target, held, single);
    } else {
      count, used := ChangeFromCover(d, maxSpends, minimize, target, held);
    }
  }

  // ---------------------------------------------------------------------------------------
  // getSpends

  /** One pass of getSpends over the list: the first `count` usable mints of one denomination. */
  method PassOver(mints: seq<MintMeta>, i: nat, count: nat, value: nat)
    returns (picked: seq<MintMeta>, amount: nat, left: nat)
    ensures picked == FirstOf(mints, i, count)
    ensures amount == Worth(|picked|, value) && left == count - |picked|
  {
    picked, amount, left := [], 0, count;
    for n := 0 to |mints|
      invariant picked == FirstOf(mints[..n], i, count)
      invariant amount == Worth(|picked|, value) && left == count - |picked|
    {
      var mint := mints[n];
      assert mints[..n + 1][..n] == mints[..n];
      if mint.isUsed {
        continue;
      }
      if i == mint.denom && left != 0 {
        picked := picked + [mint];
        amount := amount + value;
        left := left - 1;
      }
    }
    assert mints[..|mints|] == mints;
  }

  /** A pass takes a part of what is to be picked. */
  lemma PassStep(mints: seq<MintMeta>, i: nat, n: nat)
    requires n > 0 ==> CountUsable(mints, i) > 0
    ensures |FirstOf(mints, i, n)| == Min(n, CountUsable(mints, i))
    ensures Repeated(mints, i, n) == FirstOf(mints, i, n) + Repeated(mints, i, n - |FirstOf(mints, i, n)|)
  {
    var all := CountUsable(mints, i);
    FirstOfCount(mints, i, n);
    if n > all {
      FirstOfAll(mints, i, n);
    } else {
      RepeatedIs(mints, i, 0);
    }
  }

  /** The do/while loop of getSpends for one denomination. */
  method PickAll(mints: seq<MintMeta>, i: nat, wanted: nat, value: nat)
    returns (picked: seq<MintMeta>, amount: nat)
    requires wanted > 0 ==> CountUsable(mints, i) > 0
    ensures picked == Repeated(mints, i, wanted)
    ensures amount == Worth(wanted, value)
  {
    hide FirstOf, Repeated, CountUsable;
    picked, amount := [], 0;
    var left: nat := wanted;
    var again := true;
    while again
      invariant picked + Repeated(mints, i, left) == Repeated(mints, i, wanted)
      invariant left <= wanted && amount == Worth(wanted - left, value)
      invariant !again ==> left == 0
      decreases left, again
    {
      PassStep(mints, i, left);
      var more, worth, rest := PassOver(mints, i, left, value);
      WorthPlus(wanted - left, |more|, value);
      picked, amount, left := picked + more, amount + worth, rest;
      again := left != 0;
    }
    RepeatedIs(mints, i, 0);
  }

  /** getSpends, where it ends. */
  method GetSpends(d: seq<nat>, mints: seq<MintMeta>, wanted: seq<nat>)
      returns (selected: seq<MintMeta>, spentValue: nat)
    requires Chain(d) && Served(d, mints, wanted)
    ensures selected == SpendsFrom(d, mints, wanted, 0)
    ensures spentValue == SumValue(d, selected) == Total(d, wanted) && |selected| == Size(wanted)
    ensures forall m :: m in selected ==> m in mints && !m.isUsed
    ensures DistinctUnused(selected, mints) <==> Held(wanted, Stock(d, mints))
  {
    selected, spentValue := [], 0;
    for i := |d| downto 0
      invariant selected == SpendsFrom(d, mints, wanted, i)
      invariant spentValue + Value(d, wanted, i) == Total(d, wanted)
    {
      var picked, amount := PickAll(mints, i, wanted[i], d[i]);
      selected := selected + picked;
      spentValue := spentValue + amount;
    }
    SpendsTotal(d, mints, wanted, 0);
    SpendsAreDistinct(d, mints, wanted);
  }

  // ---------------------------------------------------------------------------------------
  // SelectMintsFromList

  /** What SelectMintsFromList reports besides the mints. */
  datatype Selection = Selection(mints: seq<MintMeta>, value: int, coinsReturned: int, neededSpends: nat)

  /** vector::size() <= (size_t)nMaxNumberOfSpends; a negative limit becomes a huge one. */
  predicate FitsLimit(n: nat, maxSpends: int) {
    maxSpends < 0 || n <= maxSpends
  }

  /** SelectMintsFromList, given the exact selection and what calculateChange returns. */
  function Outcome(d: seq<nat>, target: int, value: int, maxSpends: int, mints: seq<MintMeta>,
                   exact: seq<nat>, c: int, used: seq<nat>): Selection
    requires Whole(d, exact) && Whole(d, used)
  {
    var met := Total(d, exact) == target;
    if met && FitsLimit(Size(exact), maxSpends) then
      Selection(SpendsFrom(d, mints, exact, 0), target, 0, 0)
    else
      var needed := if met then Size(exact) else 0;
      if c == 0 then Selection([], if met then target else value, 0, needed)
      else Selection(SpendsFrom(d, mints, used, 0), Total(d, used), c, needed)
  }

  function Selected(d: seq<nat>, target: int, value: int, maxSpends: int, minimize: bool,
                    mints: seq<MintMeta>, held: seq<nat>): Selection
    requires Whole(d, held)
  {
    var (c, used) := Calculated(d, maxSpends, minimize, target, held);
    Outcome(d, target, value, maxSpends, mints, Spend(d, target, Stock(d, mints)), c, used)
  }

  /** The counts of the coins it returns. */
  function Counts(d: seq<nat>, target: int, maxSpends: int, minimize: bool, mints: seq<MintMeta>, held: seq<nat>)
    : (r: seq<nat>)
    requires Whole(d, held)
    ensures Whole(d, r)
  {
    var exact := Spend(d, target, Stock(d, mints));
    var (c, used) := Calculated(d, maxSpends, minimize, target, held);
    if Total(d, exact) == target && FitsLimit(Size(exact), maxSpends) then exact
    else if c == 0 then NoCoins(d) else used
  }

  method SelectMintsFromList(d: seq<nat>, target: int, value: int, maxSpends: int, minimize: bool,
                             mints: seq<MintMeta>, held: seq<nat>) returns (r: Selection)
    requires Chain(d) && Whole(d, held) && Served(d, mints, Counts(d, target, maxSpends, minimize, mints, held))
    ensures r == Selected(d, target, value, maxSpends, minimize, mints, held)
  {
    hide Calculated, Spend, Stock;
    var selected := [];
    var selectedValue, neededSpends := value, 0;
    SpendDecidesPayable(d, target, Stock(d, mints));
    var canMeetExactly, used := GetIdealSpends(d, target, mints);
    if canMeetExactly {
      HeldIsServed(d, mints, used);
      selected, selectedValue := GetSpends(d, mints, used);
      if FitsLimit(|selected|, maxSpends) {
        return Selection(selected, selectedValue, 0, neededSpends);
      } else {
        neededSpends := |selected|;
      }
    }
    var coinsReturned;
    coinsReturned, used := CalculateChange(d, maxSpends, minimize, target, held);
    if coinsReturned == 0 {
      selected := [];
    } else {
      selected, selectedValue := GetSpends(d, mints, used);
    }
    return Selection(selected, selectedValue, coinsReturned, neededSpends);
  }

  lemma HeldIsServed(d: seq<nat>, mints: seq<MintMeta>, used: seq<nat>)
    requires Held(used, Stock(d, mints))
    ensures Served(d, mints, used)
  {
  }

  /** Where every denomination that counts as held has a usable mint, the selection ends. */
  lemma SelectionEnds(d: seq<nat>, target: int, maxSpends: int, minimize: bool, mints: seq<MintMeta>, held: seq<nat>)
    requires Chain(d) && Served(d, mints, held)
    ensures Served(d, mints, Counts(d, target, maxSpends, minimize, mints, held))
  {
    hide Calculated, Spend;
    SpendDecidesPayable(d, target, Stock(d, mints));
    CalculatedIsSound(d, maxSpends, minimize, target, held);
  }

  /** A true report: unused mints of the list whose value is reported truly, paying the target exactly without
      change or exceeding it with the reported number of change coins. */
  predicate TrueReport(d: seq<nat>, r: Selection, target: int, mints: seq<MintMeta>) {
    && (forall m :: m in r.mints ==> m in mints && !m.isUsed)
    && (r.mints != [] ==> r.value == SumValue(d, r.mints) && target <= r.value)
    && (r.mints != [] ==> (r.coinsReturned == 0 <==> r.value == target))
    && (r.coinsReturned != 0 ==> r.coinsReturned == Size(Change(d, r.value - target)))
  }

  /** What is selected are the mints for those counts; if any, the value reported is theirs. */
  lemma SelectedCounts(d: seq<nat>, target: int, value: int, maxSpends: int, minimize: bool,
                       mints: seq<MintMeta>, held: seq<nat>)
    requires Chain(d) && Whole(d, held) && Served(d, mints, Counts(d, target, maxSpends, minimize, mints, held))
    ensures var r := Selected(d, target, value, maxSpends, minimize, mints, held);
            var used := Counts(d, target, maxSpends, minimize, mints, held);
            && r.mints == SpendsFrom(d, mints, used, 0)
            && (r.mints != [] ==> r.value == Total(d, used))
            && (r.coinsReturned != 0 ==> r.value == Total(d, used))
  {
    hide Calculated, Spend, SpendsFrom, Total;
    NothingIsNothing(d, NoCoins(d), |d|);
    if Counts(d, target, maxSpends, minimize, mints, held) == NoCoins(d) {
      SpendsTotal(d, mints, NoCoins(d), 0);
    }
  }

  /** The counts are held or in the list, and pay the target exactly without change or exceed it with the change
      reported. */
  lemma CountsPay(d: seq<nat>, target: int, value: int, maxSpends: int, minimize: bool,
                  mints: seq<MintMeta>, held: seq<nat>)
    requires Chain(d) && Whole(d, held)
    ensures var c := Selected(d, target, value, maxSpends, minimize, mints, held).coinsReturned;
            var used := Counts(d, target, maxSpends, minimize, mints, held);
            && (Held(held, Stock(d, mints)) ==> Held(used, Stock(d, mints)))
            && (c == 0 ==> Total(d, used) == target || used == NoCoins(d))
            && (c != 0 ==> target < Total(d, used) && c == Size(Change(d, Total(d, used) - target)))
  {
    hide Calculated, Spend, SpendsFrom, Total, Change;
    SpendDecidesPayable(d, target, Stock(d, mints));
    CalculatedIsSound(d, maxSpends, minimize, target, held);
  }

  /** Whatever SelectMintsFromList comes back with is a true report; and it names no mint twice just if the list
      has the coins it counts, as it has if the held counts are in the list. */
  lemma SelectionIsSound(d: seq<nat>, target: int, value: int, maxSpends: int, minimize: bool,
                         mints: seq<MintMeta>, held: seq<nat>)
    requires Chain(d) && Whole(d, held) && Served(d, mints, Counts(d, target, maxSpends, minimize, mints, held))
    ensures var r := Selected(d, target, value, maxSpends, minimize, mints, held);
            var used := Counts(d, target, maxSpends, minimize, mints, held);
            && TrueReport(d, r, target, mints) && |r.mints| == Size(used)
            && (DistinctUnused(r.mints, mints) <==> Held(used, Stock(d, mints)))
            && (Held(held, Stock(d, mints)) ==> DistinctUnused(r.mints, mints))
  {
    hide Selected, Counts, SpendsFrom, Total, Change, Held;
    var used := Counts(d, target, maxSpends, minimize, mints, held);
    SelectedCounts(d, target, value, maxSpends, minimize, mints, held);
    CountsPay(d, target, value, maxSpends, minimize, mints, held);
    if used == NoCoins(d) {
      NothingIsNothing(d, used, |d|);
    }
    SpendsTotal(d, mints, used, 0);
    SpendsAreDistinct(d, mints, used);
  }

  /** If the unused mints are worth at least a whole-coin target that they cannot pay exactly, the
      selection never comes back empty. */
  lemma SelectionSucceeds(d: seq<nat>, n: nat, value: int, maxSpends: int, minimize: bool, mints: seq<MintMeta>)
    requires Chain(d) && 0 < n && Worth(n, d[0]) <= Total(d, Stock(d, mints))
    requires !Payable(d, Worth(n, d[0]), Stock(d, mints))
    ensures var r := Selected(d, Worth(n, d[0]), value, maxSpends, minimize, mints, Stock(d, mints));
            r.mints != [] && r.coinsReturned > 0 && Worth(n, d[0]) < r.value == SumValue(d, r.mints)
  {
    var target, held := Worth(n, d[0]), Stock(d, mints);
    SpendDecidesPayable(d, target, held);
    CalculatedSucceeds(d, maxSpends, minimize, n, held);
    CalculatedIsSound(d, maxSpends, minimize, target, held);
    var (c, used) := Calculated(d, maxSpends, minimize, target, held);
    SpendsTotal(d, mints, used, 0);
  }

  /** A target the unused mints can pay exactly within the limit, which is none if it is negative, is paid exactly,
      with the fewest coins. */
  lemma SelectionIsIdeal(d: seq<nat>, value: int, maxSpends: int, minimize: bool, mints: seq<MintMeta>,
                         held: seq<nat>, s: seq<nat>)
    requires Chain(d) && Whole(d, held) && Held(s, Stock(d, mints))
    requires Size(s) <= maxSpends || maxSpends < 0
    ensures var r := Selected(d, Total(d, s), value, maxSpends, minimize, mints, held);
            && r.value == SumValue(d, r.mints) == Total(d, s) && r.coinsReturned == 0 && r.neededSpends == 0
            && DistinctUnused(r.mints, mints) && |r.mints| <= Size(s)
  {
    SpendDecidesPayable(d, Total(d, s), Stock(d, mints));
    SpendIsOptimal(d, Stock(d, mints), s);
    SpendsTotal(d, mints, Spend(d, Total(d, s), Stock(d, mints)), 0);
    SpendsAreDistinct(d, mints, Spend(d, Total(d, s), Stock(d, mints)));
  }

  /** Any other gets what calculateChange finds, if it finds change. The spends reported as needed are the fewest
      coins that pay the target exactly, or zero if none do. */
  lemma SelectionFallsBack(d: seq<nat>, target: int, value: int, maxSpends: int, minimize: bool,
                           mints: seq<MintMeta>, held: seq<nat>)
    requires Chain(d) && Whole(d, held)
    requires forall s :: Held(s, Stock(d, mints)) && Total(d, s) == target ==> 0 <= maxSpends < Size(s)
    ensures var r := Selected(d, target, value, maxSpends, minimize, mints, held);
            var (c, used) := Calculated(d, maxSpends, minimize, target, held);
            var payable := Payable(d, target, Stock(d, mints));
            && r.coinsReturned == c
            && (if c != 0 then r.mints == SpendsFrom(d, mints, used, 0) && r.value == Total(d, used)
                else r.mints == [] && r.value == if payable then target else value)
            && (forall s :: Held(s, Stock(d, mints)) && Total(d, s) == target ==> r.neededSpends <= Size(s))
            && (if payable
                then exists s :: Held(s, Stock(d, mints)) && Total(d, s) == target && Size(s) == r.neededSpends
                else r.neededSpends == 0)
  {
    hide Calculated, SpendsFrom, Stock, Value, NumCoins, Greedy;
    var exact := Spend(d, target, Stock(d, mints));
    SpendDecidesPayable(d, target, Stock(d, mints));
    forall s | Held(s, Stock(d, mints)) && Total(d, s) == target
      ensures Size(exact) <= Size(s)
    {
      SpendIsOptimal(d, Stock(d, mints), s);
    }
  }
}
