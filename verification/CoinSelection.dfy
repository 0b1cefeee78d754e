/** Zerocoin coin selection (src/denomination_functions.cpp): the selections its functions make, and
    what they promise, over any divisor chain of denomination amounts `d`. The loops that make them
    are in MintSelection.dfy.

    A `std::map<CoinDenomination, CAmount>` is a sequence of counts in the order of the denomination
    list. A denomination is its position in the list; ZQ_ERROR is -1, or the length of the list
    where a function looks for the smallest denomination.
*/
module CoinSelection {
  import opened DivisorChain

  function Min(a: nat, b: nat): nat {
    if a <= b then a else b
  }

  // ---------------------------------------------------------------------------------------
  // minimizeChange

  /** The stock without the denominations above a limit. */
  function UpTo(held: seq<nat>, limit: int): (r: seq<nat>)
    ensures Held(r, held)
    ensures forall i :: 0 <= i < |held| ==> r[i] == if i <= limit then held[i] else 0
  {
    seq(|held|, i requires 0 <= i < |held| => if i <= limit then held[i] else 0)
  }

  /** Stage one: the most of the largest coins that stays strictly below the target. */
  function BelowTarget(d: seq<nat>, target: int, held: seq<nat>, limit: int): (r: seq<nat>)
    requires Whole(d, held)
    ensures Whole(d, r)
  {
    Spend(d, target - 1, UpTo(held, limit))
  }

  /** Stage two: position of the coin that takes the selection over the target, |d| if none. */
  function TopUpCoin(d: seq<nat>, used: seq<nat>, held: seq<nat>, remaining: int, i: nat): (r: nat)
    requires Whole(d, used) && Whole(d, held) && i <= |d|
    ensures r <= |d|
    ensures r < |d| ==> d[r] > remaining && used[r] < held[r]
    ensures 0 <= remaining ==> forall j :: i <= j < r ==> d[j] <= remaining || used[j] >= held[j]
    decreases |d| - i
  {
    if i == |d| then |d|
    else if d[i] > remaining && used[i] < held[i] then i
    else if remaining < 0 then |d|
    else TopUpCoin(d, used, held, remaining, i + 1)
  }

  function ToppedUp(d: seq<nat>, used: seq<nat>, held: seq<nat>, remaining: int): (r: seq<nat>)
    requires Whole(d, used) && Whole(d, held)
    ensures Whole(d, r)
  {
    var i := TopUpCoin(d, used, held, remaining, 0);
    if i < |d| then used[i := used[i] + 1] else used
  }

  /** Stage three: coins that would come straight back as change are not spent. */
  function WithoutOverlap(used: seq<nat>, change: seq<nat>): (r: seq<nat>)
    requires |change| == |used|
    ensures Held(r, used)
    ensures forall i :: 0 <= i < |used| ==> r[i] == used[i] - Min(used[i], change[i])
  {
    seq(|used|, i requires 0 <= i < |used| => used[i] - Min(used[i], change[i]))
  }

  function Overpaying(d: seq<nat>, target: int, held: seq<nat>, limit: int): (r: seq<nat>)
    requires Whole(d, held)
    ensures Whole(d, r)
  {
    var below := BelowTarget(d, target, held, limit);
    ToppedUp(d, below, held, target - Total(d, below))
  }

  /** The amount the alternative selection is worth. */
  function AlternativeAmount(d: seq<nat>, target: int, held: seq<nat>, limit: int): nat
    requires Whole(d, held)
  {
    var over := Overpaying(d, target, held, limit);
    Total(d, WithoutOverlap(over, Change(d, Total(d, over) - target)))
  }

  /** The alternative selection: the amount found above, met again with the fewest coins. */
  function Alternative(d: seq<nat>, target: int, held: seq<nat>, limit: int): (r: seq<nat>)
    requires Whole(d, held)
    ensures Whole(d, r)
  {
    Spend(d, AlternativeAmount(d, target, held, limit), held)
  }

  /** minimizeChange: the alternative if it yields less change and few enough spends. */
  function Minimized(d: seq<nat>, maxSpends: int, changeCount: int, limit: int, target: int,
                     held: seq<nat>, used: seq<nat>): (r: (int, seq<nat>))
    requires Whole(d, held) && Whole(d, used)
    ensures Whole(d, r.1)
  {
    var other := Alternative(d, target, held, limit);
    if ChangeCount(d, other, target) < changeCount && Size(other) <= maxSpends
    then (ChangeCount(d, other, target), other)
    else (changeCount, used)
  }

  lemma BelowTargetStaysBelow(d: seq<nat>, target: int, held: seq<nat>, limit: int)
    requires Whole(d, held)
    ensures Held(BelowTarget(d, target, held, limit), held)
    ensures 0 < target ==> Total(d, BelowTarget(d, target, held, limit)) < target
  {
    GreedyWithin(d, target - 1, UpTo(held, limit), |d|);
  }

  /** Among the coins up to the limit it is the most valuable selection below the target. */
  lemma BelowTargetIsMost(d: seq<nat>, target: nat, held: seq<nat>, limit: int, s: seq<nat>)
    requires Chain(d) && Whole(d, held) && Held(s, held) && Total(d, s) < target
    requires forall i :: 0 <= i < |d| && limit < i ==> s[i] == 0
    ensures var below := BelowTarget(d, target, held, limit);
            && Total(d, s) <= Total(d, below) < target
            && forall i :: 0 <= i < |d| && limit < i ==> below[i] == 0
  {
    hide Greedy, Value;
    assert Held(s, UpTo(held, limit));
    SpendIsMost(d, target - 1, UpTo(held, limit), s);
  }

  lemma OverpayingIsHeld(d: seq<nat>, target: int, held: seq<nat>, limit: int)
    requires Whole(d, held)
    ensures Held(Overpaying(d, target, held, limit), held)
  {
    BelowTargetStaysBelow(d, target, held, limit);
  }

  /** Re-meeting the amount with getSpendCoins always succeeds: some held selection is worth it. */
  lemma AlternativeMeetsAmount(d: seq<nat>, target: int, held: seq<nat>, limit: int)
    requires Chain(d) && Whole(d, held)
    ensures Held(Alternative(d, target, held, limit), held)
    ensures Total(d, Alternative(d, target, held, limit)) == AlternativeAmount(d, target, held, limit)
  {
    var over := Overpaying(d, target, held, limit);
    var kept := WithoutOverlap(over, Change(d, Total(d, over) - target));
    OverpayingIsHeld(d, target, held, limit);
    assert Held(kept, held);
    SpendIsOptimal(d, held, kept);
    SpendDecidesPayable(d, Total(d, kept), held);
  }

  /** Removing the overlap never takes the selection back below the target. */
  lemma OverlapLeavesTarget(d: seq<nat>, used: seq<nat>, target: int)
    requires Chain(d) && Whole(d, used) && target <= Total(d, used)
    ensures target <= Total(d, WithoutOverlap(used, Change(d, Total(d, used) - target)))
  {
    var excess := Total(d, used) - target;
    var change := Change(d, excess);
    var removed := seq(|d|, i requires 0 <= i < |d| => Min(used[i], change[i]));
    WithinValue(d, removed, change, |d|);
    GreedyWithin(d, excess, AmpleStock(d, excess), |d|);
    ValueMinus(d, WithoutOverlap(used, change), used, removed, |d|);
  }

  /** Where the second stage cannot miss: a coin above the limit is worth more than the target, or
      every held coin is within the limit and the stock covers the target. */
  predicate CanTopUp(d: seq<nat>, target: int, held: seq<nat>, limit: int)
    requires Whole(d, held)
  {
    || (exists i :: 0 <= i < |d| && limit < i && held[i] > 0 && d[i] > target)
    || ((forall i :: 0 <= i < |d| && limit < i ==> held[i] == 0) && target <= Total(d, held))
  }

  /** If the target cannot be paid exactly, the second stage takes the selection over it. */
  lemma TopUpSucceeds(d: seq<nat>, target: int, held: seq<nat>, limit: int)
    requires Chain(d) && Whole(d, held) && 0 < target
    requires !Payable(d, target, held) && CanTopUp(d, target, held, limit)
    ensures target < Total(d, Overpaying(d, target, held, limit))
  {
    var below := BelowTarget(d, target, held, limit);
    BelowTargetStaysBelow(d, target, held, limit);
    var i := TopUpCoin(d, below, held, target - Total(d, below), 0);
    if i < |d| {
      ValueBump(d, below, i, |d|);
    } else {
      NothingLeftToAdd(d, target, held, limit);
      assert false;
    }
  }

  lemma NothingLeftToAdd(d: seq<nat>, target: int, held: seq<nat>, limit: int)
    requires Chain(d) && Whole(d, held) && 0 < target && CanTopUp(d, target, held, limit)
    requires var below := BelowTarget(d, target, held, limit);
             TopUpCoin(d, below, held, target - Total(d, below), 0) == |d|
    ensures Payable(d, target, held)
  {
    hide Greedy, Take, Value, NumCoins, Worth, TopUpCoin, Divides, UpTo;
    var below := BelowTarget(d, target, held, limit);
    BelowTargetStaysBelow(d, target, held, limit);
    GreedyWithin(d, target - 1, UpTo(held, limit), |d|);
    if i :| 0 <= i < |d| && limit < i && held[i] > 0 && d[i] > target {
      assert false;
    } else if i :| 0 <= i < |d| && below[i] < held[i] {
      GreedyLeavesLess(d, target - 1, UpTo(held, limit), i, |d|);
      var s := below[i := below[i] + 1];
      ValueBump(d, below, i, |d|);
      assert Held(s, held) && Total(d, s) == target;
    } else {
      ValueOfPrefix(d, below, held, |d|);
      assert false;
    }
  }

  /** minimizeChange keeps what it was given, or returns a held selection worth more than the target
      together with its exact number of change coins (or no change coins at all). */
  lemma MinimizedIsSound(d: seq<nat>, maxSpends: int, changeCount: int, limit: int, target: int,
                         held: seq<nat>, used: seq<nat>)
    requires Chain(d) && Whole(d, held) && Whole(d, used)
    ensures var (c, s) := Minimized(d, maxSpends, changeCount, limit, target, held, used);
            || (c == changeCount && s == used)
            || (&& c < changeCount && Size(s) <= maxSpends
                && Held(s, held)
                && c == ChangeCount(d, s, target)
                && (0 < c ==> target < Total(d, s)))
  {
    AlternativeMeetsAmount(d, target, held, limit);
    var other := Alternative(d, target, held, limit);
    if Total(d, other) <= target {
      NoChangeForNothing(d, other, target);
    }
  }

  /** For a target that cannot be paid exactly, the alternative exceeds it. */
  lemma AlternativeExceeds(d: seq<nat>, target: nat, held: seq<nat>, limit: int)
    requires Chain(d) && Whole(d, held) && 0 < target
    requires !Payable(d, target, held) && CanTopUp(d, target, held, limit)
    ensures target < AlternativeAmount(d, target, held, limit)
  {
    hide Overpaying, Change, Value, CanTopUp;
    TopUpSucceeds(d, target, held, limit);
    OverpayingIsHeld(d, target, held, limit);
    var over := Overpaying(d, target, held, limit);
    OverlapLeavesTarget(d, over, target);
    var kept := WithoutOverlap(over, Change(d, Total(d, over) - target));
    assert Held(kept, held);
  }

  /** For a whole-coin target that cannot be paid exactly, the alternative always yields change. */
  lemma AlternativeYieldsChange(d: seq<nat>, n: nat, held: seq<nat>, limit: int)
    requires Chain(d) && Whole(d, held) && 0 < n
    requires !Payable(d, Worth(n, d[0]), held) && CanTopUp(d, Worth(n, d[0]), held, limit)
    ensures Worth(n, d[0]) < Total(d, Alternative(d, Worth(n, d[0]), held, limit))
    ensures 0 < ChangeCount(d, Alternative(d, Worth(n, d[0]), held, limit), Worth(n, d[0]))
  {
    var target := Worth(n, d[0]);
    AlternativeExceeds(d, target, held, limit);
    AlternativeMeetsAmount(d, target, held, limit);
    ExcessYieldsChange(d, Alternative(d, target, held, limit), n);
  }

  // ---------------------------------------------------------------------------------------
  // calculateChange

  /** Smallest held denomination over the target, |d| (for ZQ_ERROR) if none. */
  function SingleCoinOver(d: seq<nat>, target: int, held: seq<nat>, i: nat): (r: nat)
    requires Whole(d, held) && i <= |d|
    ensures i <= r <= |d|
    ensures r < |d| ==> target < d[r] && held[r] > 0
    ensures forall j :: i <= j < r ==> !(target < d[j] && held[j] > 0)
    decreases |d| - i
  {
    if i == |d| || (target < d[i] && held[i] > 0) then i
    else SingleCoinOver(d, target, held, i + 1)
  }

  /** Largest held denomination below position i, -1 (ZQ_ERROR) if none: getNextLowerDenomHeld, and
      getMaxDenomHeld for i the number of denominations. */
  function LargestHeldBelow(held: seq<nat>, i: nat): (r: int)
    requires i <= |held|
    ensures -1 <= r < i
    ensures 0 <= r ==> held[r] > 0
    ensures forall j :: 0 <= j < i && r < j ==> held[j] == 0
  {
    if i == 0 then -1 else if held[i - 1] != 0 then i - 1 else LargestHeldBelow(held, i - 1)
  }

  /** How many coins of one denomination the last-resort loop takes: until nothing remains. */
  function CoverTake(target: int, available: nat, coin: nat): (g: nat)
    ensures g <= available
    ensures g < available ==> target <= Worth(g, coin)
  {
    if target > 0 && available > 0 then 1 + CoverTake(target - coin, available - 1, coin) else 0
  }

  /** The last resort: the largest held coins until the target is covered. */
  function Cover(d: seq<nat>, target: int, held: seq<nat>, k: nat): (g: seq<nat>)
    requires k <= |d| && k <= |held|
    ensures |g| == k
    decreases k, held
  {
    if k == 0 then [] else
    var taken := CoverTake(target, held[k - 1], d[k - 1]);
    Cover(d, target - Worth(taken, d[k - 1]), held, k - 1) + [taken]
  }

  function OneCoin(d: seq<nat>, i: nat): (r: seq<nat>)
    requires i < |d|
    ensures Whole(d, r)
  {
    NoCoins(d)[i := 1]
  }

  /** calculateChange when one coin exceeds the target. */
  function FromSingle(d: seq<nat>, maxSpends: int, minimize: bool, target: int, held: seq<nat>, single: nat)
    : (r: (int, seq<nat>))
    requires Whole(d, held) && single < |d|
    ensures Whole(d, r.1)
  {
    var one := OneCoin(d, single);
    var count := ChangeCount(d, one, target);
    var (c, s) := Minimized(d, maxSpends, count, LargestHeldBelow(held, single), target, held, one);
    if minimize && c < count then (c, s) else (count, one)
  }

  /** calculateChange when no single coin does. */
  function FromCover(d: seq<nat>, maxSpends: int, minimize: bool, target: int, held: seq<nat>): (r: (int, seq<nat>))
    requires Whole(d, held)
    ensures Whole(d, r.1)
  {
    var cover := Cover(d, target, held, |d|);
    var count := ChangeCount(d, cover, target);
    var (c, s) := Minimized(d, maxSpends, count, LargestHeldBelow(held, |d|), target, held, cover);
    if !minimize && Size(cover) < Size(s) then (count, cover) else (c, s)
  }

  /** calculateChange: number of change coins (0 for failure) and the selection. */
  function Calculated(d: seq<nat>, maxSpends: int, minimize: bool, target: int, held: seq<nat>): (r: (int, seq<nat>))
    requires Whole(d, held)
    ensures Whole(d, r.1)
  {
    var single := SingleCoinOver(d, target, held, 0);
    if single < |d| then FromSingle(d, maxSpends, minimize, target, held, single)
    else FromCover(d, maxSpends, minimize, target, held)
  }

  lemma CoverStep(d: seq<nat>, target: int, held: seq<nat>, k: nat)
    requires 1 <= k <= |d| && k <= |held|
    ensures var g := CoverTake(target, held[k - 1], d[k - 1]);
            var rest := Cover(d, target - Worth(g, d[k - 1]), held, k - 1);
            && Cover(d, target, held, k) == rest + [g]
            && Value(d, Cover(d, target, held, k), k) == Value(d, rest, k - 1) + Worth(g, d[k - 1])
  {
    var g := CoverTake(target, held[k - 1], d[k - 1]);
    var rest := Cover(d, target - Worth(g, d[k - 1]), held, k - 1);
    ValueOfPrefix(d, rest + [g], rest, k - 1);
  }

  /** The last resort is held, and covers the target if the whole stock does. */
  lemma {:induction false} CoverCovers(d: seq<nat>, target: int, held: seq<nat>, k: nat)
    requires k <= |d| && k <= |held|
    ensures Within(Cover(d, target, held, k), held, k)
    ensures target <= Value(d, held, k) ==> target <= Value(d, Cover(d, target, held, k), k)
    decreases k
  {
    if k > 0 {
      var g := CoverTake(target, held[k - 1], d[k - 1]);
      CoverCovers(d, target - Worth(g, d[k - 1]), held, k - 1);
      CoverStep(d, target, held, k);
    }
  }

  lemma CoinsAscend(d: seq<nat>, i: nat)
    requires Chain(d) && 1 <= i < |d|
    ensures d[i - 1] <= d[i]
  {
    var q :| 1 <= q && Worth(q, d[i - 1]) == d[i];
    assert Worth(1, d[i - 1]) == d[i - 1];
    if q > 1 {
      WorthGrows(1, q, d[i - 1]);
    }
  }

  /** n coins of the k smallest denominations are worth at most n of the largest of them. */
  lemma {:induction false} ValueOfCoins(d: seq<nat>, s: seq<nat>, k: nat)
    requires Chain(d) && 1 <= k <= |d| && k <= |s|
    ensures Value(d, s, k) <= Worth(NumCoins(s, k), d[k - 1])
  {
    var coin := d[k - 1];
    if k > 1 {
      ValueOfCoins(d, s, k - 1);
      CoinsAscend(d, k - 1);
      WorthMono(NumCoins(s, k - 1), d[k - 2], coin);
    }
    WorthPlus(NumCoins(s, k - 1), s[k - 1], coin);
  }

  /** The loop of the last resort takes a coin only if something remains. */
  lemma {:induction false} CoverTakeNeeded(target: int, available: nat, coin: nat)
    ensures var g := CoverTake(target, available, coin);
            && (g > 0 ==> Worth(g - 1, coin) < target)
            && (target > 0 && available > 0 ==> g > 0)
  {
    if target > 0 && available > 0 {
      CoverTakeNeeded(target - coin, available - 1, coin);
      var g := CoverTake(target - coin, available - 1, coin);
      if g > 0 {
        WorthPlus(g - 1, 1, coin);
        assert Worth(1, coin) == coin;
      }
    }
  }

  lemma CoverCount(d: seq<nat>, target: int, held: seq<nat>, k: nat)
    requires 1 <= k <= |d| && k <= |held|
    ensures var g := CoverTake(target, held[k - 1], d[k - 1]);
            NumCoins(Cover(d, target, held, k), k)
            == NumCoins(Cover(d, target - Worth(g, d[k - 1]), held, k - 1), k - 1) + g
  {
    CoverStep(d, target, held, k);
    var g := CoverTake(target, held[k - 1], d[k - 1]);
    var rest := Cover(d, target - Worth(g, d[k - 1]), held, k - 1);
    NumCoinsPrefix(rest + [g], rest, k - 1);
  }

  lemma {:induction false} NumCoinsPrefix(c: seq<nat>, e: seq<nat>, k: nat)
    requires k <= |c| && k <= |e| && c[..k] == e[..k]
    ensures NumCoins(c, k) == NumCoins(e, k)
  {
    if k > 0 {
      assert c[..k - 1] == c[..k][..k - 1] == e[..k - 1];
      assert c[k - 1] == c[..k][k - 1] == e[k - 1];
      NumCoinsPrefix(c, e, k - 1);
    }
  }

  /** A held selection of fewer coins than the last resort, and j coins of the largest denomination more, is worth
      less than the target and those j coins. */
  lemma {:induction false} FewerIsLess(d: seq<nat>, target: int, held: seq<nat>, s: seq<nat>, k: nat, j: nat)
    requires Chain(d) && 1 <= k <= |d| && Within(s, held, k)
    requires NumCoins(Cover(d, target, held, k), k) >= 1
    requires NumCoins(s, k) < NumCoins(Cover(d, target, held, k), k) + j
    ensures Value(d, s, k) < target + Worth(j, d[k - 1])
    decreases k
  {
    hide Cover, CoverTake, Worth;
    var coin := d[k - 1];
    var g := CoverTake(target, held[k - 1], coin);
    var n := NumCoins(Cover(d, target - Worth(g, coin), held, k - 1), k - 1);
    CoverCount(d, target, held, k);
    CoverTakeNeeded(target, held[k - 1], coin);
    if n == 0 {
      ValueOfCoins(d, s, k);
      if NumCoins(s, k) < g - 1 + j {
        WorthGrows(NumCoins(s, k), g - 1 + j, coin);
      }
      WorthPlus(g - 1, j, coin);
    } else {
      FewerBelow(d, target, held, s, k, j, g);
    }
  }

  /** The case that the last resort needs smaller coins too. */
  lemma {:induction false} FewerBelow(d: seq<nat>, target: int, held: seq<nat>, s: seq<nat>, k: nat, j: nat, g: nat)
    requires Chain(d) && 1 <= k <= |d| && Within(s, held, k)
    requires g == CoverTake(target, held[k - 1], d[k - 1])
    requires var n := NumCoins(Cover(d, target - Worth(g, d[k - 1]), held, k - 1), k - 1);
             n >= 1 && NumCoins(s, k) < n + g + j
    ensures Value(d, s, k) < target + Worth(j, d[k - 1])
    decreases k, 0
  {
    hide Cover, CoverTake, Worth;
    var coin, t := d[k - 1], s[k - 1];
    CoverOfNothing(d, target - Worth(g, coin), held, k - 1);
    assert g == held[k - 1];
    FewerIsLess(d, target - Worth(g, coin), held, s, k - 1, g - t + j);
    CoinsAscend(d, k - 1);
    WorthMono(g - t + j, d[k - 2], coin);
    WorthPlus(g - t + j, t, coin);
    WorthPlus(g, j, coin);
  }

  lemma {:induction false} CoverOfNothing(d: seq<nat>, target: int, held: seq<nat>, k: nat)
    requires k <= |d| && k <= |held|
    ensures target <= 0 ==> NumCoins(Cover(d, target, held, k), k) == 0
    decreases k
  {
    if k > 0 && target <= 0 {
      CoverOfNothing(d, target, held, k - 1);
      CoverCount(d, target, held, k);
    }
  }

  /** The last resort covers the target with as few coins as any held selection does. */
  lemma CoverIsShortest(d: seq<nat>, target: int, held: seq<nat>, s: seq<nat>)
    requires Chain(d) && Whole(d, held) && Held(s, held) && target <= Total(d, s)
    ensures Size(Cover(d, target, held, |d|)) <= Size(s)
  {
    hide Cover, Value, NumCoins, Within;
    if Size(s) < Size(Cover(d, target, held, |d|)) {
      FewerIsLess(d, target, held, s, |d|, 0);
      assert false;
    }
  }

  /** What calculateChange chooses from: `first`, made without regard to change, and `other`, with less change
      perhaps. The other is taken only if it gives less change and has few enough coins; asked to minimize the
      change, it is then taken. */
  predicate Chooses(d: seq<nat>, maxSpends: int, minimize: bool, target: int, first: seq<nat>, other: seq<nat>,
                    c: int, used: seq<nat>)
    requires Whole(d, first) && Whole(d, other)
  {
    && (used == first || used == other) && c == ChangeCount(d, used, target) <= ChangeCount(d, first, target)
    && (used != first ==> c < ChangeCount(d, first, target) && Size(other) <= maxSpends)
    && (minimize && Size(other) <= maxSpends ==> c <= ChangeCount(d, other, target))
  }

  /** The smallest held coin that exceeds the target. */
  predicate SmallestOver(d: seq<nat>, target: int, held: seq<nat>, i: nat) {
    && i < |d| && i < |held| && target < d[i] && held[i] > 0
    && forall j :: 0 <= j < i ==> !(target < d[j] && held[j] > 0)
  }

  /** The largest held denomination below another, -1 for none. */
  predicate NextBelow(held: seq<nat>, i: nat, limit: int) {
    && -1 <= limit < i <= |held| && (0 <= limit ==> held[limit] > 0)
    && forall j :: limit < j < i && 0 <= j ==> held[j] == 0
  }

  /** If a held coin exceeds the target, calculateChange takes the smallest such coin alone, unless it is to minimize
      the change and the alternative, kept below that coin, gives less. */
  ghost predicate ChoosesSingle(d: seq<nat>, maxSpends: int, minimize: bool, target: int, held: seq<nat>,
                                c: int, used: seq<nat>)
    requires Whole(d, held)
  {
    forall i: nat, limit :: SmallestOver(d, target, held, i) && NextBelow(held, i, limit) ==>
      && Chooses(d, maxSpends, minimize, target, OneCoin(d, i), Alternative(d, target, held, limit), c, used)
      && (!minimize ==> used == OneCoin(d, i))
  }

  /** Otherwise, if the target is covered at all, it covers it with the fewest coins, unless the alternative gives
      less change and either that is asked for or it has as few coins. */
  ghost predicate ChoosesCover(d: seq<nat>, maxSpends: int, minimize: bool, target: int, held: seq<nat>,
                               c: int, used: seq<nat>)
    requires Whole(d, held)
  {
    forall limit ::
      && (forall i :: 0 <= i < |d| && target < d[i] ==> held[i] == 0) && target <= Total(d, held)
      && NextBelow(held, |d|, limit) ==>
        var other := Alternative(d, target, held, limit);
        exists first: seq<nat> ::
          && Whole(d, first) && Held(first, held) && target <= Total(d, first)
          && (forall s: seq<nat> :: Held(s, held) && target <= Total(d, s) ==> Size(first) <= Size(s))
          && Chooses(d, maxSpends, minimize, target, first, other, c, used)
          && (!minimize ==> Size(used) <= Size(first))
          && (Size(other) <= maxSpends && Size(other) <= Size(first) ==> c <= ChangeCount(d, other, target))
  }

  lemma ChangeIsChosen(d: seq<nat>, maxSpends: int, minimize: bool, target: int, held: seq<nat>, limit: int,
                       first: seq<nat>)
    requires Whole(d, held) && Whole(d, first)
    ensures var other := Alternative(d, target, held, limit);
            var (c, s) := Minimized(d, maxSpends, ChangeCount(d, first, target), limit, target, held, first);
            && Chooses(d, maxSpends, minimize, target, first, other, c, s)
            && (!minimize ==>
                  Chooses(d, maxSpends, minimize, target, first, other, ChangeCount(d, first, target), first))
            && (Size(other) <= maxSpends ==> c <= ChangeCount(d, other, target))
  {
    hide Alternative, ChangeCount, Size;
  }

  /** The choices of calculateChange. */
  lemma CalculatedChooses(d: seq<nat>, maxSpends: int, minimize: bool, target: int, held: seq<nat>)
    requires Chain(d) && Whole(d, held)
    ensures var (c, used) := Calculated(d, maxSpends, minimize, target, held);
            && ChoosesSingle(d, maxSpends, minimize, target, held, c, used)
            && ChoosesCover(d, maxSpends, minimize, target, held, c, used)
  {
    hide Alternative, ChangeCount, Size, Total, Cover, OneCoin, Held, Minimized, ChoosesSingle, ChoosesCover;
    var single := SingleCoinOver(d, target, held, 0);
    if single < |d| {
      SingleIsChosen(d, maxSpends, minimize, target, held, single);
    } else {
      CoverIsChosen(d, maxSpends, minimize, target, held);
    }
  }

  lemma OneLimit(held: seq<nat>, i: nat, a: int, b: int)
    requires NextBelow(held, i, a) && NextBelow(held, i, b)
    ensures a == b
  {
  }

  lemma SingleIsChosen(d: seq<nat>, maxSpends: int, minimize: bool, target: int, held: seq<nat>, single: nat)
    requires Whole(d, held) && single < |d| && single == SingleCoinOver(d, target, held, 0)
    ensures var (c, used) := FromSingle(d, maxSpends, minimize, target, held, single);
            && ChoosesSingle(d, maxSpends, minimize, target, held, c, used)
            && ChoosesCover(d, maxSpends, minimize, target, held, c, used)
  {
    hide Alternative, ChangeCount, Size, Total, OneCoin, Held, Minimized, NextBelow, ChoosesCover;
    var (c, used) := FromSingle(d, maxSpends, minimize, target, held, single);
    forall i: nat, limit | SmallestOver(d, target, held, i) && NextBelow(held, i, limit)
      ensures Chooses(d, maxSpends, minimize, target, OneCoin(d, i), Alternative(d, target, held, limit), c, used)
      ensures !minimize ==> used == OneCoin(d, i)
    {
      assert i == single;
      LargestIsNext(held, single);
      OneLimit(held, single, limit, LargestHeldBelow(held, single));
      ChangeIsChosen(d, maxSpends, minimize, target, held, limit, OneCoin(d, single));
    }
    NoCoverNeeded(d, maxSpends, minimize, target, held, single, c, used);
  }

  lemma LargestIsNext(held: seq<nat>, i: nat)
    requires i <= |held|
    ensures NextBelow(held, i, LargestHeldBelow(held, i))
  {
  }

  lemma NoCoverNeeded(d: seq<nat>, maxSpends: int, minimize: bool, target: int, held: seq<nat>, single: nat,
                      c: int, used: seq<nat>)
    requires Whole(d, held) && single < |d| && target < d[single] && held[single] > 0
    ensures ChoosesCover(d, maxSpends, minimize, target, held, c, used)
  {
  }

  lemma CoverIsChosen(d: seq<nat>, maxSpends: int, minimize: bool, target: int, held: seq<nat>)
    requires Chain(d) && Whole(d, held) && SingleCoinOver(d, target, held, 0) == |d|
    ensures var (c, used) := FromCover(d, maxSpends, minimize, target, held);
            && ChoosesSingle(d, maxSpends, minimize, target, held, c, used)
            && ChoosesCover(d, maxSpends, minimize, target, held, c, used)
  {
    hide Alternative, ChangeCount, Size, Value, Cover, Minimized, Chooses, NextBelow, FromCover, Within;
    var (c, used) := FromCover(d, maxSpends, minimize, target, held);
    if target <= Total(d, held) {
      var cover := Cover(d, target, held, |d|);
      CoverCovers(d, target, held, |d|);
      LargestIsNext(held, |d|);
      CoverChooses(d, maxSpends, minimize, target, held);
      CoverIsLeast(d, target, held);
      forall limit | NextBelow(held, |d|, limit)
        ensures limit == LargestHeldBelow(held, |d|)
      {
        OneLimit(held, |d|, limit, LargestHeldBelow(held, |d|));
      }
    }
  }

  lemma CoverIsLeast(d: seq<nat>, target: int, held: seq<nat>)
    requires Chain(d) && Whole(d, held)
    ensures forall s: seq<nat> :: Held(s, held) && target <= Total(d, s) ==>
              Size(Cover(d, target, held, |d|)) <= Size(s)
  {
    forall s: seq<nat> | Held(s, held) && target <= Total(d, s)
      ensures Size(Cover(d, target, held, |d|)) <= Size(s)
    {
      CoverIsShortest(d, target, held, s);
    }
  }

  lemma CoverChooses(d: seq<nat>, maxSpends: int, minimize: bool, target: int, held: seq<nat>)
    requires Whole(d, held)
    ensures var (c, used) := FromCover(d, maxSpends, minimize, target, held);
            var cover := Cover(d, target, held, |d|);
            var other := Alternative(d, target, held, LargestHeldBelow(held, |d|));
            && Chooses(d, maxSpends, minimize, target, cover, other, c, used)
            && (!minimize ==> Size(used) <= Size(cover))
            && (Size(other) <= maxSpends && Size(other) <= Size(cover) ==> c <= ChangeCount(d, other, target))
  {
    hide Alternative, ChangeCount, Size, Cover;
  }

  /** The calculated selection is held, worth more than the target, and c coins of change. */
  predicate GivesChange(d: seq<nat>, c: int, s: seq<nat>, target: int, held: seq<nat>) {
    Whole(d, s) && Held(s, held) && target < Total(d, s) && c == ChangeCount(d, s, target)
  }

  /** Whenever calculateChange returns a positive number, it has chosen held coins worth more than
      the target, and that number is how many coins getChange gives for the excess. */
  lemma CalculatedIsSound(d: seq<nat>, maxSpends: int, minimize: bool, target: int, held: seq<nat>)
    requires Chain(d) && Whole(d, held)
    ensures var (c, s) := Calculated(d, maxSpends, minimize, target, held);
            0 <= c && (0 < c ==> GivesChange(d, c, s, target, held))
  {
    var single := SingleCoinOver(d, target, held, 0);
    if single < |d| {
      OneCoinTotal(d, single);
      BetterOfTwo(d, maxSpends, LargestHeldBelow(held, single), target, held, OneCoin(d, single));
    } else {
      CoverCovers(d, target, held, |d|);
      BetterOfTwo(d, maxSpends, LargestHeldBelow(held, |d|), target, held, Cover(d, target, held, |d|));
    }
  }

  lemma BetterOfTwo(d: seq<nat>, maxSpends: int, limit: int, target: int, held: seq<nat>, used: seq<nat>)
    requires Chain(d) && Whole(d, held) && Held(used, held)
    ensures var count := ChangeCount(d, used, target);
            var (c, s) := Minimized(d, maxSpends, count, limit, target, held, used);
            && (0 < count ==> GivesChange(d, count, used, target, held))
            && 0 <= c
            && (0 < c ==> GivesChange(d, c, s, target, held))
  {
    if Total(d, used) <= target {
      NoChangeForNothing(d, used, target);
    }
    MinimizedIsSound(d, maxSpends, ChangeCount(d, used, target), limit, target, held, used);
  }

  lemma OneCoinTotal(d: seq<nat>, i: nat)
    requires i < |d|
    ensures Total(d, OneCoin(d, i)) == d[i]
  {
    NothingIsNothing(d, NoCoins(d), |d|);
    ValueSet(d, NoCoins(d), i, 1, |d|);
    assert Worth(1, d[i]) == d[i];
  }

  /** A whole-coin target that the stock covers but cannot pay exactly always gets change. */
  lemma CalculatedSucceeds(d: seq<nat>, maxSpends: int, minimize: bool, n: nat, held: seq<nat>)
    requires Chain(d) && Whole(d, held) && 0 < n
    requires Worth(n, d[0]) <= Total(d, held) && !Payable(d, Worth(n, d[0]), held)
    ensures 0 < Calculated(d, maxSpends, minimize, Worth(n, d[0]), held).0
  {
    var target := Worth(n, d[0]);
    CountBelowWorth(n, d[0]);
    var single := SingleCoinOver(d, target, held, 0);
    if single < |d| {
      OneCoinTotal(d, single);
      ExcessYieldsChange(d, OneCoin(d, single), n);
      AlternativeYieldsChange(d, n, held, LargestHeldBelow(held, single));
    } else {
      var cover := Cover(d, target, held, |d|);
      CoverCovers(d, target, held, |d|);
      assert Held(cover, held) && Total(d, cover) != target;
      ExcessYieldsChange(d, cover, n);
      AlternativeYieldsChange(d, n, held, LargestHeldBelow(held, |d|));
    }
  }
}
