/** Greedy coin selection over any divisor chain of denominations, each a multiple of the one before.

    Taking the largest coins first decides whether an amount can be paid exactly out of a bounded
    stock, and pays it with the fewest coins. Selections and stocks are counts in the order of the
    denominations `d`, smallest first; `k` restricts them to the k smallest denominations.
*/
module DivisorChain {

  /** Value of n coins of one denomination. */
  function Worth(n: nat, coin: nat): nat {
    if n == 0 then 0 else Worth(n - 1, coin) + coin
  }

  ghost predicate Divides(small: nat, large: nat) {
    exists q: nat :: 1 <= q && Worth(q, small) == large
  }

  ghost predicate Chain(d: seq<nat>) {
    && d != []
    && (forall i :: 0 <= i < |d| ==> 0 < d[i])
    && (forall i :: 1 <= i < |d| ==> Divides(d[i - 1], d[i]))
  }

  /** Total value of the k smallest denominations of a selection. */
  function Value(d: seq<nat>, c: seq<nat>, k: nat): nat
    requires k <= |c| && k <= |d|
  {
    if k == 0 then 0 else Value(d, c, k - 1) + Worth(c[k - 1], d[k - 1])
  }

  /** Number of coins among the k smallest denominations of a selection. */
  function NumCoins(c: seq<nat>, k: nat): nat
    requires k <= |c|
  {
    if k == 0 then 0 else NumCoins(c, k - 1) + c[k - 1]
  }

  /** On the k smallest denominations, the selection s stays within the stock h. */
  predicate Within(s: seq<nat>, h: seq<nat>, k: nat) {
    k <= |s| && k <= |h| && forall i :: 0 <= i < k ==> s[i] <= h[i]
  }

  /** How many coins of one denomination the greedy loop takes. */
  function Take(target: int, available: nat, coin: nat): (g: nat)
    ensures g <= available
    ensures g == 0 || Worth(g, coin) <= target
    ensures g < available ==> target < Worth(g + 1, coin)
  {
    if target >= coin && available > 0 then 1 + Take(target - coin, available - 1, coin) else 0
  }

  /** Greedy selection of the k smallest denominations, largest first. */
  function Greedy(d: seq<nat>, target: int, held: seq<nat>, k: nat): (g: seq<nat>)
    requires k <= |held| && k <= |d|
    ensures |g| == k
    decreases k, held
  {
    if k == 0 then [] else
    var taken := Take(target, held[k - 1], d[k - 1]);
    Greedy(d, target - Worth(taken, d[k - 1]), held, k - 1) + [taken]
  }

  // ---------------------------------------------------------------------------------------
  // Coins of one denomination

  lemma {:induction false} WorthPlus(m: nat, n: nat, coin: nat)
    ensures Worth(m + n, coin) == Worth(m, coin) + Worth(n, coin)
  {
    if n > 0 {
      WorthPlus(m, n - 1, coin);
    }
  }

  lemma {:induction false} WorthTimes(m: nat, n: nat, coin: nat)
    ensures Worth(m * n, coin) == Worth(m, Worth(n, coin))
  {
    if m > 0 {
      WorthTimes(m - 1, n, coin);
      assert m * n == (m - 1) * n + n;
      WorthPlus((m - 1) * n, n, coin);
    }
  }

  lemma WorthGrows(a: nat, b: nat, coin: nat)
    requires a < b
    ensures Worth(a, coin) + coin <= Worth(b, coin)
  {
    WorthPlus(a, b - a, coin);
    WorthPlus(1, b - a - 1, coin);
  }

  lemma {:induction false} WorthMono(n: nat, small: nat, large: nat)
    requires small <= large
    ensures Worth(n, small) <= Worth(n, large)
  {
    if n > 0 {
      WorthMono(n - 1, small, large);
    }
  }

  /** A number of coins of one denomination is worth a number of coins of the next smaller one. */
  lemma WorthInSmaller(d: seq<nat>, n: nat, i: nat) returns (m: nat)
    requires Chain(d) && 1 <= i < |d|
    ensures Worth(n, d[i]) == Worth(m, d[i - 1])
    ensures d[i - 1] <= d[i]
  {
    var q: nat :| 1 <= q && Worth(q, d[i - 1]) == d[i];
    m := n * q;
    WorthTimes(n, q, d[i - 1]);
    WorthGrows(0, q, d[i - 1]);
  }

  /** Out of an amount of n coins, the loop takes as many as there are. */
  lemma {:induction false} TakeOfWorth(n: nat, available: nat, coin: nat)
    requires 0 < coin
    ensures Take(Worth(n, coin), available, coin) == if n <= available then n else available
  {
    if n > 0 && available > 0 {
      TakeOfWorth(n - 1, available - 1, coin);
    }
  }

  /** Whatever stops at the stock or at less than a coin has taken what the loop takes. */
  lemma TakeIs(target: int, available: nat, coin: nat, g: nat)
    requires g <= available && (g > 0 ==> Worth(g, coin) <= target)
    requires g < available ==> target - Worth(g, coin) < coin
    ensures Take(target, available, coin) == g
  {
    var t := Take(target, available, coin);
    if t < g {
      WorthGrows(t, g, coin);
    } else if g < t {
      WorthGrows(g, t, coin);
    }
  }

  lemma LeftOfWorth(n: nat, available: nat, coin: nat) returns (more: nat)
    requires 0 < coin
    ensures Worth(n, coin) - Worth(Take(Worth(n, coin), available, coin), coin) == Worth(more, coin)
    ensures more == 0 || (0 < Worth(more, coin) && Take(Worth(n, coin), available, coin) == available)
  {
    TakeOfWorth(n, available, coin);
    more := if n <= available then 0 else n - available;
    if n > available {
      WorthPlus(available, more, coin);
      WorthGrows(0, more, coin);
    }
  }

  // ---------------------------------------------------------------------------------------
  // Selections

  /** Removing a part t of a selection s. */
  function Minus(s: seq<nat>, t: seq<nat>, k: nat): (r: seq<nat>)
    requires Within(t, s, k)
    ensures |r| == k
    ensures forall i :: 0 <= i < k ==> r[i] == s[i] - t[i]
  {
    seq(k, i requires 0 <= i < k => s[i] - t[i])
  }

  lemma {:induction false} ValueMinus(d: seq<nat>, r: seq<nat>, s: seq<nat>, t: seq<nat>, k: nat)
    requires Within(t, s, k) && k <= |r| && k <= |d|
    requires forall i :: 0 <= i < k ==> r[i] == s[i] - t[i]
    ensures Value(d, r, k) == Value(d, s, k) - Value(d, t, k)
    ensures NumCoins(r, k) == NumCoins(s, k) - NumCoins(t, k)
  {
    if k > 0 {
      ValueMinus(d, r, s, t, k - 1);
      WorthPlus(r[k - 1], t[k - 1], d[k - 1]);
    }
  }

  lemma WithinValue(d: seq<nat>, s: seq<nat>, h: seq<nat>, k: nat)
    requires Within(s, h, k) && k <= |d|
    ensures Value(d, s, k) <= Value(d, h, k)
    ensures NumCoins(s, k) <= NumCoins(h, k)
  {
    ValueMinus(d, Minus(h, s, k), h, s, k);
  }

  lemma {:induction false} ValueOfPrefix(d: seq<nat>, c: seq<nat>, e: seq<nat>, k: nat)
    requires k <= |c| && k <= |e| && k <= |d|
    requires forall i :: 0 <= i < k ==> c[i] == e[i]
    ensures Value(d, c, k) == Value(d, e, k)
    ensures NumCoins(c, k) == NumCoins(e, k)
  {
    if k > 0 {
      ValueOfPrefix(d, c, e, k - 1);
    }
  }

  /** Coins below a denomination are each worth at most as much as it. */
  lemma {:induction false} ValueAtMost(d: seq<nat>, s: seq<nat>, k: nat)
    requires Chain(d) && 1 <= k < |d| && k <= |s|
    ensures Value(d, s, k) <= Worth(NumCoins(s, k), d[k - 1])
  {
    if k > 1 {
      ValueAtMost(d, s, k - 1);
      var _ := WorthInSmaller(d, 0, k - 1);
      WorthMono(NumCoins(s, k - 1), d[k - 2], d[k - 1]);
    }
    WorthPlus(NumCoins(s, k - 1), s[k - 1], d[k - 1]);
  }

  lemma {:induction false} CoinBelowValue(d: seq<nat>, s: seq<nat>, i: nat, k: nat)
    requires i < k <= |s| && k <= |d|
    ensures Worth(s[i], d[i]) <= Value(d, s, k)
  {
    if i < k - 1 {
      CoinBelowValue(d, s, i, k - 1);
    }
  }

  lemma {:induction false} NoCoinsNoValue(d: seq<nat>, s: seq<nat>, k: nat)
    requires k <= |s| && k <= |d| && NumCoins(s, k) == 0
    ensures Value(d, s, k) == 0
  {
    if k > 0 {
      NoCoinsNoValue(d, s, k - 1);
    }
  }

  // ---------------------------------------------------------------------------------------
  // The exchange argument

  lemma GreedyStep(d: seq<nat>, target: int, held: seq<nat>, k: nat)
    requires 1 <= k <= |held| && k <= |d|
    ensures var g := Take(target, held[k - 1], d[k - 1]);
            var rest := Greedy(d, target - Worth(g, d[k - 1]), held, k - 1);
            && Greedy(d, target, held, k) == rest + [g]
            && Value(d, Greedy(d, target, held, k), k) == Value(d, rest, k - 1) + Worth(g, d[k - 1])
            && NumCoins(Greedy(d, target, held, k), k) == NumCoins(rest, k - 1) + g
  {
    var g := Take(target, held[k - 1], d[k - 1]);
    var rest := Greedy(d, target - Worth(g, d[k - 1]), held, k - 1);
    ValueOfPrefix(d, rest + [g], rest, k - 1);
  }

  lemma {:induction false} GreedyWithin(d: seq<nat>, target: int, held: seq<nat>, k: nat)
    requires k <= |held| && k <= |d|
    ensures Within(Greedy(d, target, held, k), held, k)
    ensures 0 <= target ==> Value(d, Greedy(d, target, held, k), k) <= target
    decreases k
  {
    hide Greedy, Take, Within, Worth;
    if k > 0 {
      GreedyStep(d, target, held, k);
      var g := Take(target, held[k - 1], d[k - 1]);
      var left := target - Worth(g, d[k - 1]);
      GreedyWithin(d, left, held, k - 1);
      WithinPlus(Greedy(d, left, held, k - 1), g, held, k - 1);
      TakeFits(target, held[k - 1], d[k - 1]);
    } else {
      WithinNone(Greedy(d, target, held, 0), held);
    }
  }

  lemma TakeLeavesLess(target: nat, available: nat, coin: nat)
    ensures var g := Take(target, available, coin);
            Worth(g, coin) <= target && (g < available ==> target - Worth(g, coin) < coin)
  {
    hide Take;
  }

  lemma TakeFits(target: int, available: nat, coin: nat)
    ensures 0 <= target ==> Worth(Take(target, available, coin), coin) <= target
  {
    hide Take;
  }

  lemma WithinNone(s: seq<nat>, held: seq<nat>)
    ensures Within(s, held, 0)
  {
  }

  lemma WithinPlus(s: seq<nat>, g: nat, held: seq<nat>, k: nat)
    requires |s| == k < |held| && Within(s, held, k) && g <= held[k]
    ensures Within(s + [g], held, k + 1)
  {
  }

  /** A coin the greedy loop passed over is worth more than what is left in the end. */
  lemma {:induction false} GreedyLeavesLess(d: seq<nat>, target: nat, held: seq<nat>, i: nat, k: nat)
    requires i < k <= |held| && k <= |d|
    requires Greedy(d, target, held, k)[i] < held[i]
    ensures target - Value(d, Greedy(d, target, held, k), k) < d[i]
    decreases k
  {
    hide Greedy, Take, Value, Worth;
    var g := Take(target, held[k - 1], d[k - 1]);
    GreedyStep(d, target, held, k);
    TakeLeavesLess(target, held[k - 1], d[k - 1]);
    if i < k - 1 {
      GreedyLeavesLess(d, target - Worth(g, d[k - 1]), held, i, k - 1);
    }
  }

  /** Coins worth at least n of the largest denomination among them can pay n of it exactly. */
  lemma {:induction false} MultipleIsPayable(d: seq<nat>, n: nat, s: seq<nat>, k: nat)
    requires Chain(d) && 1 <= k <= |s| && k <= |d|
    requires Worth(n, d[k - 1]) <= Value(d, s, k)
    ensures Value(d, Greedy(d, Worth(n, d[k - 1]), s, k), k) == Worth(n, d[k - 1])
    decreases k
  {
    hide Greedy, Take, Within, Divides;
    var coin := d[k - 1];
    var more := LeftOfWorth(n, s[k - 1], coin);
    GreedyStep(d, Worth(n, coin), s, k);
    if more == 0 {
      GreedyWithin(d, 0, s, k - 1);
    } else if k > 1 {
      var m := WorthInSmaller(d, more, k - 1);
      MultipleIsPayable(d, m, s, k - 1);
    }
  }

  lemma TakeIsMost(d: seq<nat>, target: int, held: seq<nat>, s: seq<nat>, k: nat)
    requires 1 <= k <= |d| && Within(s, held, k) && Value(d, s, k) == target
    ensures s[k - 1] <= Take(target, held[k - 1], d[k - 1])
  {
    var g := Take(target, held[k - 1], d[k - 1]);
    if g + 1 < s[k - 1] {
      WorthGrows(g + 1, s[k - 1], d[k - 1]);
    }
  }

  /** A part of s worth exactly n coins of the next larger denomination; it has at least n coins. */
  lemma Payment(d: seq<nat>, n: nat, s: seq<nat>, k: nat) returns (t: seq<nat>)
    requires Chain(d) && 1 <= k < |d| && k <= |s| && Worth(n, d[k]) <= Value(d, s, k)
    ensures Within(t, s, k) && Value(d, t, k) == Worth(n, d[k]) && n <= NumCoins(t, k)
  {
    var m := WorthInSmaller(d, n, k);
    MultipleIsPayable(d, m, s, k);
    t := Greedy(d, Worth(n, d[k]), s, k);
    GreedyWithin(d, Worth(n, d[k]), s, k);
    ValueAtMost(d, t, k);
    WorthMono(NumCoins(t, k), d[k - 1], d[k]);
    if NumCoins(t, k) < n {
      WorthGrows(NumCoins(t, k), n, d[k]);
    }
  }

  /** Any exact selection can be rearranged, without using more coins, to start with the greedy
      number of the largest coin. */
  lemma Exchange(d: seq<nat>, target: int, held: seq<nat>, s: seq<nat>, k: nat) returns (low: seq<nat>)
    requires Chain(d) && 1 <= k <= |d| && Within(s, held, k) && Value(d, s, k) == target
    ensures var g := Take(target, held[k - 1], d[k - 1]);
            && Within(low, held, k - 1)
            && Value(d, low, k - 1) == target - Worth(g, d[k - 1])
            && NumCoins(low, k - 1) + g <= NumCoins(s, k)
  {
    TakeIsMost(d, target, held, s, k);
    var n := Take(target, held[k - 1], d[k - 1]) - s[k - 1];
    WorthPlus(s[k - 1], n, d[k - 1]);
    if k == 1 {
      low := [];
    } else {
      var t := Payment(d, n, s, k - 1);
      low := Minus(s, t, k - 1);
      ValueMinus(d, low, s, t, k - 1);
    }
  }

  /** Bounded greedy completeness and optimality: if any selection pays the target exactly, the
      greedy one does, with no more coins. */
  lemma {:induction false} GreedyComplete(d: seq<nat>, target: int, held: seq<nat>, s: seq<nat>, k: nat)
    requires Chain(d) && k <= |d| && Within(s, held, k) && Value(d, s, k) == target
    ensures Value(d, Greedy(d, target, held, k), k) == target
    ensures NumCoins(Greedy(d, target, held, k), k) <= NumCoins(s, k)
    decreases k
  {
    if k > 0 {
      var low := Exchange(d, target, held, s, k);
      var g := Take(target, held[k - 1], d[k - 1]);
      GreedyComplete(d, target - Worth(g, d[k - 1]), held, low, k - 1);
      GreedyStep(d, target, held, k);
    }
  }

  // ---------------------------------------------------------------------------------------
  // Whole selections: a count for every denomination

  predicate Whole(d: seq<nat>, c: seq<nat>) {
    |c| == |d|
  }

  /** The value of a selection. */
  function Total(d: seq<nat>, c: seq<nat>): nat
    requires Whole(d, c)
  {
    Value(d, c, |d|)
  }

  /** The number of coins of a selection. */
  function Size(c: seq<nat>): nat {
    NumCoins(c, |c|)
  }

  /** The selection is held. */
  predicate Held(s: seq<nat>, held: seq<nat>) {
    |s| == |held| && Within(s, held, |held|)
  }

  /** Some held selection is worth exactly the target. */
  ghost predicate Payable(d: seq<nat>, target: int, held: seq<nat>)
    requires Whole(d, held)
  {
    exists s: seq<nat> :: Held(s, held) && Total(d, s) == target
  }

  /** The greedy selection. */
  function Spend(d: seq<nat>, target: int, held: seq<nat>): (g: seq<nat>)
    requires Whole(d, held)
    ensures Whole(d, g)
  {
    Greedy(d, target, held, |d|)
  }

  /** The greedy selection stays within the stock, never overshoots, and pays exactly whatever any
      held selection can pay: it decides the bounded subset-sum problem. */
  lemma SpendDecidesPayable(d: seq<nat>, target: int, held: seq<nat>)
    requires Chain(d) && Whole(d, held)
    ensures Held(Spend(d, target, held), held)
    ensures 0 <= target ==> Total(d, Spend(d, target, held)) <= target
    ensures Payable(d, target, held) <==> Total(d, Spend(d, target, held)) == target
  {
    GreedyWithin(d, target, held, |d|);
    if Payable(d, target, held) {
      var s :| Held(s, held) && Total(d, s) == target;
      SpendIsOptimal(d, held, s);
    }
  }

  /** The greedy selection pays what a held selection pays, with no more coins. */
  lemma SpendIsOptimal(d: seq<nat>, held: seq<nat>, s: seq<nat>)
    requires Chain(d) && Whole(d, held) && Held(s, held)
    ensures Total(d, Spend(d, Total(d, s), held)) == Total(d, s)
    ensures Size(Spend(d, Total(d, s), held)) <= Size(s)
  {
    GreedyComplete(d, Total(d, s), held, s, |d|);
  }

  lemma {:induction false} TakeMono(less: int, more: int, available: nat, coin: nat)
    requires less <= more
    ensures Take(less, available, coin) <= Take(more, available, coin)
  {
    if less >= coin && available > 0 {
      TakeMono(less - coin, more - coin, available - 1, coin);
    }
  }

  /** With more to pay the greedy selection is worth no less. */
  lemma {:induction false} GreedyMono(d: seq<nat>, less: nat, more: nat, held: seq<nat>, k: nat)
    requires less <= more && k <= |held| && k <= |d|
    ensures Value(d, Greedy(d, less, held, k), k) <= Value(d, Greedy(d, more, held, k), k)
    decreases k
  {
    hide Greedy, Take, Value, Worth;
    if k > 0 {
      var coin, available := d[k - 1], held[k - 1];
      var g, m := Take(less, available, coin), Take(more, available, coin);
      TakeMono(less, more, available, coin);
      TakeFits(less, available, coin);
      TakeFits(more, available, coin);
      GreedyStep(d, less, held, k);
      GreedyStep(d, more, held, k);
      if g == m {
        GreedyMono(d, less - Worth(g, coin), more - Worth(g, coin), held, k - 1);
      } else {
        GreedyWithin(d, less, held, k);
        TakeLeavesLess(less, available, coin);
        WorthGrows(g, m, coin);
      }
    } else {
      NoValue(d, Greedy(d, less, held, 0), Greedy(d, more, held, 0));
    }
  }

  lemma NoValue(d: seq<nat>, s: seq<nat>, t: seq<nat>)
    ensures Value(d, s, 0) == Value(d, t, 0)
  {
  }

  /** The greedy selection is the most valuable of all held selections that do not exceed the target. */
  lemma SpendIsMost(d: seq<nat>, target: nat, held: seq<nat>, s: seq<nat>)
    requires Chain(d) && Whole(d, held) && Held(s, held) && Total(d, s) <= target
    ensures Held(Spend(d, target, held), held)
    ensures Total(d, s) <= Total(d, Spend(d, target, held)) <= target
  {
    hide Greedy, Value;
    SpendDecidesPayable(d, target, held);
    SpendIsOptimal(d, held, s);
    GreedyMono(d, Total(d, s), target, held, |d|);
  }

  // ---------------------------------------------------------------------------------------
  // Change without limits

  /** A stock that cannot run out before the amount does. */
  function AmpleStock(d: seq<nat>, amount: int): (r: seq<nat>)
    ensures Whole(d, r) && forall i :: 0 <= i < |d| ==> amount <= r[i]
  {
    seq(|d|, i => if amount < 0 then 0 else amount)
  }

  /** The greedy selection over a stock that never runs out. */
  function Change(d: seq<nat>, amount: int): (c: seq<nat>)
    ensures Whole(d, c)
  {
    Spend(d, amount, AmpleStock(d, amount))
  }

  /** How many coins come back when a selection pays the target. */
  function ChangeCount(d: seq<nat>, s: seq<nat>, target: int): nat
    requires Whole(d, s)
  {
    Size(Change(d, Total(d, s) - target))
  }

  lemma {:induction false} CountBelowWorth(n: nat, coin: nat)
    requires 0 < coin
    ensures n <= Worth(n, coin)
  {
    if n > 0 {
      CountBelowWorth(n - 1, coin);
    }
  }

  /** Unlimited greedy change uses the fewest coins of any selection of the same value. */
  lemma ChangeIsOptimal(d: seq<nat>, s: seq<nat>)
    requires Chain(d) && Whole(d, s)
    ensures Total(d, Change(d, Total(d, s))) == Total(d, s)
    ensures Size(Change(d, Total(d, s))) <= Size(s)
  {
    var stock := AmpleStock(d, Total(d, s));
    forall i | 0 <= i < |d|
      ensures s[i] <= stock[i]
    {
      CoinBelowValue(d, s, i, |d|);
      CountBelowWorth(s[i], d[i]);
    }
    GreedyComplete(d, Total(d, s), stock, s, |d|);
  }

  /** Multiples of the smallest denomination are changed completely. */
  lemma ChangeIsExact(d: seq<nat>, n: nat)
    requires Chain(d)
    ensures Total(d, Change(d, Worth(n, d[0]))) == Worth(n, d[0])
    ensures 0 < n ==> 0 < Size(Change(d, Worth(n, d[0])))
  {
    var ones := seq(|d|, i => if i == 0 then n else 0);
    OnesValue(d, ones, |d|);
    ChangeIsOptimal(d, ones);
    CountBelowWorth(n, d[0]);
    if Size(Change(d, Worth(n, d[0]))) == 0 {
      NoCoinsNoValue(d, Change(d, Worth(n, d[0])), |d|);
    }
  }

  lemma {:induction false} OnesValue(d: seq<nat>, s: seq<nat>, k: nat)
    requires 1 <= k <= |d| && k <= |s| && forall i :: 1 <= i < k ==> s[i] == 0
    ensures Value(d, s, k) == Worth(s[0], d[0])
  {
    if k > 1 {
      OnesValue(d, s, k - 1);
    }
  }

  lemma {:induction false} GreedyOfNothing(d: seq<nat>, amount: int, held: seq<nat>, k: nat)
    requires Chain(d) && amount <= 0 && k <= |d| && k <= |held|
    ensures NumCoins(Greedy(d, amount, held, k), k) == 0
    decreases k
  {
    if k > 0 {
      GreedyOfNothing(d, amount, held, k - 1);
      GreedyStep(d, amount, held, k);
    }
  }

  /** No change comes back when nothing is overpaid. */
  lemma NoChangeForNothing(d: seq<nat>, s: seq<nat>, target: int)
    requires Chain(d) && Whole(d, s) && Total(d, s) <= target
    ensures ChangeCount(d, s, target) == 0
  {
    var amount := Total(d, s) - target;
    GreedyOfNothing(d, amount, AmpleStock(d, amount), |d|);
  }

  /** Selections are worth multiples of the smallest denomination. */
  lemma {:induction false} ValueIsMultiple(d: seq<nat>, s: seq<nat>, k: nat) returns (n: nat)
    requires Chain(d) && k <= |d| && k <= |s|
    ensures Value(d, s, k) == Worth(n, d[0])
  {
    n := 0;
    if k > 0 {
      var low := ValueIsMultiple(d, s, k - 1);
      var ones := WorthInOnes(d, s[k - 1], k - 1);
      n := low + ones;
      WorthPlus(low, ones, d[0]);
    }
  }

  lemma {:induction false} WorthInOnes(d: seq<nat>, n: nat, i: nat) returns (m: nat)
    requires Chain(d) && i < |d|
    ensures Worth(n, d[i]) == Worth(m, d[0])
    decreases i
  {
    m := n;
    if i > 0 {
      m := WorthInSmaller(d, n, i);
      m := WorthInOnes(d, m, i - 1);
    }
  }

  lemma ExcessIsMultiple(d: seq<nat>, s: seq<nat>, n: nat) returns (e: nat)
    requires Chain(d) && Whole(d, s) && Worth(n, d[0]) < Total(d, s)
    ensures 0 < e && Total(d, s) - Worth(n, d[0]) == Worth(e, d[0])
  {
    var m := ValueIsMultiple(d, s, |d|);
    if m < n {
      WorthGrows(m, n, d[0]);
    }
    e := m - n;
    WorthPlus(n, e, d[0]);
  }

  /** Overpaying a multiple of the smallest denomination always yields change. */
  lemma ExcessYieldsChange(d: seq<nat>, s: seq<nat>, n: nat)
    requires Chain(d) && Whole(d, s) && Worth(n, d[0]) < Total(d, s)
    ensures 0 < ChangeCount(d, s, Worth(n, d[0]))
  {
    var e := ExcessIsMultiple(d, s, n);
    ChangeIsExact(d, e);
  }

  // ---------------------------------------------------------------------------------------
  // Changing one count

  lemma {:induction false} ValueBump(d: seq<nat>, s: seq<nat>, i: nat, k: nat)
    requires i < |s| && k <= |s| && k <= |d|
    ensures var t := s[i := s[i] + 1];
            && Value(d, t, k) == Value(d, s, k) + (if i < k then d[i] else 0)
            && NumCoins(t, k) == NumCoins(s, k) + (if i < k then 1 else 0)
  {
    if k > 0 {
      ValueBump(d, s, i, k - 1);
    }
  }

  lemma {:induction false} ValueSet(d: seq<nat>, s: seq<nat>, i: nat, n: nat, k: nat)
    requires i < |s| && k <= |s| && k <= |d| && s[i] == 0
    ensures var t := s[i := n];
            && Value(d, t, k) == Value(d, s, k) + (if i < k then Worth(n, d[i]) else 0)
            && NumCoins(t, k) == NumCoins(s, k) + (if i < k then n else 0)
  {
    if k > 0 {
      ValueSet(d, s, i, n, k - 1);
    }
  }

  /** The empty selection. */
  function NoCoins(d: seq<nat>): (r: seq<nat>)
    ensures Whole(d, r) && forall i :: 0 <= i < |d| ==> r[i] == 0
  {
    seq(|d|, i => 0)
  }

  lemma {:induction false} NothingIsNothing(d: seq<nat>, s: seq<nat>, k: nat)
    requires k <= |d| && k <= |s| && forall i :: 0 <= i < k ==> s[i] == 0
    ensures Value(d, s, k) == 0 && NumCoins(s, k) == 0
  {
    if k > 0 {
      NothingIsNothing(d, s, k - 1);
    }
  }
}
