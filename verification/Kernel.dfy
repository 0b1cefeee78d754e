/** Stake modifiers (src/kernel.cpp): a block of an interval contributes each bit of the next modifier, chosen
    by a hash among those not chosen before.
*/
module Kernel {
  import opened Bits
  import opened Collections
  import opened Radix
  import opened Sorting
  import opened Wrappers

  const MODIFIER_INTERVAL: nat := 60
  const MODIFIER_INTERVAL_RATIO: nat := 3
  const ROUNDS: nat := 64

  /** The parts of CBlockIndex that modifiers are made of. */
  datatype Index = Index(hash: nat, nTime: nat, nHeight: nat, fProofOfStake: bool, fGenerated: bool,
                         nStakeModifier: nat, pprev: Option<Index>)

  /** What is fixed for a network: the first height with the new selection hash, the modifier of the block
      after height 2, the hash function, the first height with proof of stake, and whether it is the regression test
      network. */
  datatype Rules = Rules(modifierUpgradeBlock: nat, nModifierAtThree: nat, hash: (nat, nat) -> nat,
                         firstPosBlock: int, isRegtest: bool)

  // ---------------------------------------------------------------------------------------
  // Intervals

  /** GetStakeModifierSelectionIntervalSection: the sections grow from a third of the interval to all of it. */
  function Section(n: nat): (a: nat)
    requires n < ROUNDS
    ensures MODIFIER_INTERVAL / MODIFIER_INTERVAL_RATIO <= a <= MODIFIER_INTERVAL
  {
    SectionBounds(63 + (63 - n) * (MODIFIER_INTERVAL_RATIO - 1));
    MODIFIER_INTERVAL * 63 / (63 + (63 - n) * (MODIFIER_INTERVAL_RATIO - 1))
  }

  lemma SectionBounds(m: nat)
    requires 63 <= m <= 189
    ensures 20 <= 3780 / m <= 60
  {
    var q := 3780 / m;
    assert 3780 == m * q + 3780 % m;
    if q < 20 {
      TimesMono(m, q, 189, 19);
    } else if q > 60 {
      TimesMono(63, 61, m, q);
    }
  }

  /** The sum of the first n sections. */
  function Sections(n: nat): nat
    requires n <= ROUNDS
  {
    if n == 0 then 0 else Sections(n - 1) + Section(n - 1)
  }

  /** All sections together last almost 35 minutes. */
  lemma IntervalIs()
    ensures Sections(ROUNDS) == 2087
  {
    hide Sections, Section;
    NoSections();
    SectionsTo8();
    SectionsTo16();
    SectionsTo24();
    SectionsTo32();
    SectionsTo40();
    SectionsTo48();
    SectionsTo56();
    SectionsTo64();
  }

  lemma SectionsTo8()
    ensures Sections(8) == Sections(0) + 163
  {
    hide Sections, Section;
    TwoSections(0, 20, 20);
    TwoSections(2, 20, 20);
    TwoSections(4, 20, 21);
    TwoSections(6, 21, 21);
  }

  lemma SectionsTo16()
    ensures Sections(16) == Sections(8) + 178
  {
    hide Sections, Section;
    TwoSections(8, 21, 22);
    TwoSections(10, 22, 22);
    TwoSections(12, 22, 23);
    TwoSections(14, 23, 23);
  }

  lemma SectionsTo24()
    ensures Sections(24) == Sections(16) + 199
  {
    hide Sections, Section;
    TwoSections(16, 24, 24);
    TwoSections(18, 24, 25);
    TwoSections(20, 25, 25);
    TwoSections(22, 26, 26);
  }

  lemma SectionsTo32()
    ensures Sections(32) == Sections(24) + 222
  {
    hide Sections, Section;
    TwoSections(24, 26, 27);
    TwoSections(26, 27, 28);
    TwoSections(28, 28, 28);
    TwoSections(30, 29, 29);
  }

  lemma SectionsTo40()
    ensures Sections(40) == Sections(32) + 253
  {
    hide Sections, Section;
    TwoSections(32, 30, 30);
    TwoSections(34, 31, 31);
    TwoSections(36, 32, 32);
    TwoSections(38, 33, 34);
  }

  lemma SectionsTo48()
    ensures Sections(48) == Sections(40) + 293
  {
    hide Sections, Section;
    TwoSections(40, 34, 35);
    TwoSections(42, 36, 36);
    TwoSections(44, 37, 38);
    TwoSections(46, 38, 39);
  }

  lemma SectionsTo56()
    ensures Sections(56) == Sections(48) + 348
  {
    hide Sections, Section;
    TwoSections(48, 40, 41);
    TwoSections(50, 42, 43);
    TwoSections(52, 44, 45);
    TwoSections(54, 46, 47);
  }

  lemma SectionsTo64()
    ensures Sections(64) == Sections(56) + 431
  {
    hide Sections, Section;
    TwoSections(56, 49, 50);
    TwoSections(58, 51, 53);
    TwoSections(60, 54, 56);
    TwoSections(62, 58, 60);
  }

  lemma NoSections()
    ensures Sections(0) == 0
  {
  }

  /** The reciprocals of the sections fall evenly. */
  predicate SectionLasts(n: nat, a: nat) {
    a * (3 * 63 - 2 * n) <= 60 * 63 < (a + 1) * (3 * 63 - 2 * n)
  }

  lemma SectionIs(n: nat)
    requires n < ROUNDS
    ensures SectionLasts(n, Section(n))
  {
    var m := 3 * 63 - 2 * n;
    assert Section(n) == 60 * 63 / m;
  }

  lemma OneSection(n: nat, a: nat)
    requires n < ROUNDS && SectionLasts(n, a)
    ensures Section(n) == a
  {
    var b, m := Section(n), 3 * 63 - 2 * n;
    SectionIs(n);
    if a < b {
      TimesMono(a + 1, m, b, m);
    } else if b < a {
      TimesMono(b + 1, m, a, m);
    }
  }

  lemma TwoSections(n: nat, a: nat, b: nat)
    requires n + 2 <= ROUNDS && SectionLasts(n, a) && SectionLasts(n + 1, b)
    ensures Sections(n + 2) == Sections(n) + a + b
  {
    hide SectionLasts, Section;
    OneSection(n, a);
    OneSection(n + 1, b);
    assert Sections(n + 1) == Sections(n) + a;
  }

  method SelectionInterval() returns (nSelectionInterval: nat)
    ensures nSelectionInterval == Sections(ROUNDS)
  {
    nSelectionInterval := 0;
    for nSection := 0 to ROUNDS
      invariant nSelectionInterval == Sections(nSection)
    {
      nSelectionInterval := nSelectionInterval + Section(nSection);
    }
  }

  // ---------------------------------------------------------------------------------------
  // The last modifier

  /** The nearest block, from one on back, that generated a modifier. */
  function Generator(b: Index): (r: Option<Index>)
    ensures r.Some? ==> r.value.fGenerated
  {
    if b.fGenerated then Some(b) else if b.pprev.Some? then Generator(b.pprev.value) else None
  }

  /** The k-th block back from one. */
  function Ancestor(b: Option<Index>, k: nat): Option<Index> {
    if b == None || k == 0 then b else Ancestor(b.value.pprev, k - 1)
  }

  /** None of the nearer blocks generated one; and there is none only if no block did. */
  lemma {:induction false} GeneratorIs(b: Index) returns (k: nat)
    ensures Ancestor(Some(b), k) == Generator(b)
    ensures forall i: nat :: i < k ==> Ancestor(Some(b), i).Some? && !Ancestor(Some(b), i).value.fGenerated
    ensures Generator(b).Some? ==> Generator(b).value.fGenerated
    decreases b
  {
    if b.fGenerated {
      k := 0;
    } else if b.pprev.Some? {
      k := GeneratorIs(b.pprev.value);
      k := k + 1;
      assert forall i: nat :: 0 < i ==> Ancestor(Some(b), i) == Ancestor(b.pprev, i - 1);
    } else {
      k := 1;
      assert Ancestor(Some(b), 1) == Ancestor(None, 0);
    }
  }

  /** GetLastStakeModifier. */
  method GetLastStakeModifier(b: Index) returns (r: Option<Index>)
    ensures r == Generator(b)
  {
    var pindex := b;
    while pindex.pprev.Some? && !pindex.fGenerated
      invariant Generator(pindex) == Generator(b)
      decreases pindex
    {
      pindex := pindex.pprev.value;
    }
    r := if pindex.fGenerated then Some(pindex) else None;
  }

  // ---------------------------------------------------------------------------------------
  // Candidates

  /** A candidate block, by time and hash. */
  datatype Item = Item(nTime: nat, hash: nat)

  predicate Less(a: Item, b: Item) {
    a.nTime < b.nTime || (a.nTime == b.nTime && a.hash < b.hash)
  }

  /** The order of the pairs is total, so there is one way to sort them. */
  lemma LessIsTotal(s: seq<Item>)
    ensures WeakOrder(Less) && Comparable(Less, s)
  {
  }

  function Sorted(s: seq<Item>): seq<Item> {
    Sort(Less, s)
  }

  lemma SortedKeeps(s: seq<Item>)
    ensures IsSorted(Less, Sorted(s)) && multiset(Sorted(s)) == multiset(s)
  {
    LessIsTotal(s);
    SortSorts(Less, s);
  }

  /** The blocks from one on back that are not older than a time. */
  function Recent(b: Option<Index>, start: int): seq<Item>
    decreases b
  {
    if b.Some? && b.value.nTime >= start
    then [Item(b.value.nTime, b.value.hash)] + Recent(b.value.pprev, start) else []
  }

  /** They end at the first older block, or after the genesis block. */
  lemma {:induction false} RecentIs(b: Option<Index>, start: int)
    ensures forall k: nat :: k < |Recent(b, start)| ==>
              && Ancestor(b, k).Some? && Ancestor(b, k).value.nTime >= start
              && Recent(b, start)[k] == Item(Ancestor(b, k).value.nTime, Ancestor(b, k).value.hash)
    ensures var end := Ancestor(b, |Recent(b, start)|); end.Some? ==> end.value.nTime < start
    decreases b
  {
    if b.Some? && b.value.nTime >= start {
      var rest := Recent(b.value.pprev, start);
      RecentIs(b.value.pprev, start);
      assert forall k: nat :: k > 0 ==> Ancestor(b, k) == Ancestor(b.value.pprev, k - 1);
      assert forall k: nat :: 0 < k < |Recent(b, start)| ==> Recent(b, start)[k] == rest[k - 1];
    }
  }

  /** The loop that collects candidates. */
  method Collect(b: Index, start: int) returns (items: seq<Item>)
    ensures items == Recent(Some(b), start)
  {
    items := [];
    var pindex := Some(b);
    while pindex.Some? && pindex.value.nTime >= start
      invariant items + Recent(pindex, start) == Recent(Some(b), start)
      decreases pindex
    {
      items := items + [Item(pindex.value.nTime, pindex.value.hash)];
      pindex := pindex.value.pprev;
    }
  }

  // ---------------------------------------------------------------------------------------
  // Selection

  /** The selection hash of a block. */
  function Key(rules: Rules, fModifierV2: bool, nStakeModifierPrev: nat, b: Index): nat {
    var hashProof := if fModifierV2 || !b.fProofOfStake then b.hash else 0;
    var hashSelection := rules.hash(hashProof, nStakeModifierPrev);
    if b.fProofOfStake then hashSelection / 0x1_0000_0000 else hashSelection
  }

  predicate AllIndexed(items: seq<Item>, blocks: map<nat, Index>) {
    forall i :: 0 <= i < |items| ==>
      && items[i].hash in blocks
      && blocks[items[i].hash].hash == items[i].hash && blocks[items[i].hash].nTime == items[i].nTime
  }

  /** A block that can be picked: not chosen yet, and the first such or not younger than the stop time. */
  predicate Eligible(items: seq<Item>, chosen: set<nat>, stop: int, i: nat) {
    && i < |items| && items[i].hash !in chosen
    && (items[i].nTime <= stop || forall j :: 0 <= j < i ==> items[j].hash in chosen)
  }

  /** The pick of a round: of those that can be picked, the one with the least key, and of these the first. */
  ghost predicate IsPick(items: seq<Item>, chosen: set<nat>, stop: int, keys: seq<nat>, i: nat)
    requires |keys| == |items|
  {
    && Eligible(items, chosen, stop, i)
    && forall j: nat :: Eligible(items, chosen, stop, j) ==> keys[i] < keys[j] || (keys[i] == keys[j] && i <= j)
  }

  lemma PickUnique(items: seq<Item>, chosen: set<nat>, stop: int, keys: seq<nat>, i: nat, j: nat)
    requires |keys| == |items| && IsPick(items, chosen, stop, keys, i) && IsPick(items, chosen, stop, keys, j)
    ensures i == j
  {
  }

  /** The keys of all candidates in a selection. */
  function Keys(rules: Rules, items: seq<Item>, blocks: map<nat, Index>, nStakeModifierPrev: nat): (keys: seq<nat>)
    requires AllIndexed(items, blocks)
    ensures |keys| == |items|
  {
    var v2 := items != [] && blocks[items[0].hash].nHeight >= rules.modifierUpgradeBlock;
    seq(|items|, i requires 0 <= i < |items| => Key(rules, v2, nStakeModifierPrev, blocks[items[i].hash]))
  }

  /** One block has a smaller selection hash than another, or the same and an earlier place. */
  predicate Beats(hashA: nat, placeA: nat, hashB: nat, placeB: nat) {
    hashA < hashB || (hashA == hashB && placeA <= placeB)
  }

  /** What the pick of a round means. From the upgrade on, a block is weighed by the hash of its own hash with the last
      modifier, and one with proof of stake by that hash without its lowest 32 bits. Before it, blocks with proof of
      stake all weigh the same: the first of them that can be picked stands for all of them. */
  ghost predicate Favoured(rules: Rules, items: seq<Item>, blocks: map<nat, Index>, chosen: set<nat>, stop: int,
                           prev: nat, i: nat)
    requires AllIndexed(items, blocks)
  {
    && i < |items| && items[i].hash !in chosen
    && (items[i].nTime <= stop || forall j :: 0 <= j < i ==> items[j].hash in chosen)
    && var a := blocks[items[i].hash];
       forall j: nat :: j < |items| && items[j].hash !in chosen && items[j].nTime <= stop ==>
         var b := blocks[items[j].hash];
         if blocks[items[0].hash].nHeight >= rules.modifierUpgradeBlock then
           Beats(rules.hash(a.hash, prev) / (if a.fProofOfStake then 0x1_0000_0000 else 1), i,
                 rules.hash(b.hash, prev) / (if b.fProofOfStake then 0x1_0000_0000 else 1), j)
         else if a.fProofOfStake && b.fProofOfStake then i <= j
         else if a.fProofOfStake then Beats(rules.hash(0, prev) / 0x1_0000_0000, i, rules.hash(b.hash, prev), j)
         else if b.fProofOfStake then Beats(rules.hash(a.hash, prev), i, rules.hash(0, prev) / 0x1_0000_0000, j)
         else Beats(rules.hash(a.hash, prev), i, rules.hash(b.hash, prev), j)
  }

  lemma PickIsFavoured(rules: Rules, items: seq<Item>, blocks: map<nat, Index>, chosen: set<nat>, stop: int,
                       prev: nat, i: nat)
    requires AllIndexed(items, blocks) && IsPick(items, chosen, stop, Keys(rules, items, blocks, prev), i)
    ensures Favoured(rules, items, blocks, chosen, stop, prev, i)
  {
    var keys := Keys(rules, items, blocks, prev);
    forall j: nat | j < |items| && items[j].hash !in chosen && items[j].nTime <= stop
      ensures Beats(keys[i], i, keys[j], j)
    {
      assert Eligible(items, chosen, stop, j);
    }
  }

  /** SelectBlockFromCandidates: the position of the pick, if there is one. */
  method SelectBlock(rules: Rules, items: seq<Item>, blocks: map<nat, Index>, chosen: set<nat>, stop: int,
                     nStakeModifierPrev: nat) returns (pick: Option<nat>)
    requires IsSorted(Less, items)
    ensures AllIndexed(items, blocks) ==>
              match pick
              case None => forall i :: 0 <= i < |items| ==> items[i].hash in chosen
              case Some(i) =>
                && IsPick(items, chosen, stop, Keys(rules, items, blocks, nStakeModifierPrev), i)
                && Favoured(rules, items, blocks, chosen, stop, nStakeModifierPrev, i)
    ensures pick.Some? ==> pick.value < |items| && items[pick.value].hash in blocks
  {
    hide Favoured;
    if AllIndexed(items, blocks) {
      forall i: nat | IsPick(items, chosen, stop, Keys(rules, items, blocks, nStakeModifierPrev), i)
        ensures Favoured(rules, items, blocks, chosen, stop, nStakeModifierPrev, i)
      {
        PickIsFavoured(rules, items, blocks, chosen, stop, nStakeModifierPrev, i);
      }
    }
    var fModifierV2 := false;
    pick := None;
    var hashBest := 0;
    var k := 0;
    while k < |items|
      invariant k <= |items|
      invariant pick.Some? ==> pick.value < k && items[pick.value].hash in blocks
      invariant AllIndexed(items, blocks) ==>
                  && fModifierV2 == (k > 0 && blocks[items[0].hash].nHeight >= rules.modifierUpgradeBlock)
                  && BestSoFar(items, chosen, stop, Keys(rules, items, blocks, nStakeModifierPrev), k, pick)
                  && (pick.Some? ==> hashBest == Keys(rules, items, blocks, nStakeModifierPrev)[pick.value])
    {
      if items[k].hash !in blocks {
        return None;
      }
      var b := blocks[items[k].hash];
      if pick.Some? && b.nTime > stop {
        if AllIndexed(items, blocks) {
          NoneLater(items, chosen, stop, Keys(rules, items, blocks, nStakeModifierPrev), k, pick.value);
        }
        return;
      }
      if k == 0 {
        fModifierV2 := b.nHeight >= rules.modifierUpgradeBlock;
      }
      if AllIndexed(items, blocks) {
        OneMore(items, chosen, stop, Keys(rules, items, blocks, nStakeModifierPrev), k, pick);
      }
      if items[k].hash !in chosen {
        var hashSelection := Key(rules, fModifierV2, nStakeModifierPrev, b);
        if pick == None || hashSelection < hashBest {
          hashBest := hashSelection;
          pick := Some(k);
        }
      }
      k := k + 1;
    }
  }

  /** The best of the first k candidates. */
  ghost predicate BestSoFar(items: seq<Item>, chosen: set<nat>, stop: int, keys: seq<nat>, k: nat, pick: Option<nat>)
    requires |keys| == |items|
  {
    match pick
    case None => forall i :: 0 <= i < k && i < |items| ==> items[i].hash in chosen
    case Some(i) =>
      && i < k && Eligible(items, chosen, stop, i)
      && forall j: nat :: j < k && Eligible(items, chosen, stop, j) ==>
           keys[i] < keys[j] || (keys[i] == keys[j] && i <= j)
  }

  lemma OneMore(items: seq<Item>, chosen: set<nat>, stop: int, keys: seq<nat>, k: nat, pick: Option<nat>)
    requires |keys| == |items| && k < |items| && BestSoFar(items, chosen, stop, keys, k, pick)
    requires pick.Some? ==> items[k].nTime <= stop
    ensures BestSoFar(items, chosen, stop, keys, k + 1,
                      if items[k].hash !in chosen && (pick == None || keys[k] < keys[pick.value]) then Some(k)
                      else pick)
  {
  }

  /** After the stop time there is nothing more to pick, once there is a pick. */
  lemma NoneLater(items: seq<Item>, chosen: set<nat>, stop: int, keys: seq<nat>, k: nat, i: nat)
    requires |keys| == |items| && k < |items| && IsSorted(Less, items) && items[k].nTime > stop
    requires BestSoFar(items, chosen, stop, keys, k, Some(i))
    ensures IsPick(items, chosen, stop, keys, i)
  {
    forall j: nat | Eligible(items, chosen, stop, j)
      ensures j < k
    {
    }
  }

  // ---------------------------------------------------------------------------------------
  // The next modifier

  /** The hashes of the first n picks. */
  function Chosen(items: seq<Item>, picks: seq<nat>, n: nat): (s: set<nat>)
    requires n <= |picks| && forall r :: 0 <= r < |picks| ==> picks[r] < |items|
  {
    set r | 0 <= r < n :: items[picks[r]].hash
  }

  /** The picks of the rounds so far, each from a longer interval and without those before. */
  ghost predicate Selection(rules: Rules, items: seq<Item>, blocks: map<nat, Index>, start: int,
                            nStakeModifierPrev: nat, picks: seq<nat>)
    requires AllIndexed(items, blocks)
  {
    && |picks| <= ROUNDS && (forall r :: 0 <= r < |picks| ==> picks[r] < |items|)
    && forall r :: 0 <= r < |picks| ==>
         IsPick(items, Chosen(items, picks, r), start + Sections(r + 1),
                Keys(rules, items, blocks, nStakeModifierPrev), picks[r])
  }

  /** The bits that blocks contribute: the lowest of their hashes. */
  function EntropyBits(items: seq<Item>, picks: seq<nat>): (bits: seq<bool>)
    requires forall r :: 0 <= r < |picks| ==> picks[r] < |items|
    ensures |bits| == |picks|
  {
    seq(|picks|, r requires 0 <= r < |picks| => items[picks[r]].hash % 2 == 1)
  }

  /** No block is picked twice. */
  lemma PicksDistinct(rules: Rules, items: seq<Item>, blocks: map<nat, Index>, start: int, prev: nat, picks: seq<nat>)
    requires AllIndexed(items, blocks) && Selection(rules, items, blocks, start, prev, picks)
    ensures forall q, r :: 0 <= q < r < |picks| ==> items[picks[q]].hash != items[picks[r]].hash
  {
    forall q, r | 0 <= q < r < |picks|
      ensures items[picks[q]].hash != items[picks[r]].hash
    {
      assert items[picks[q]].hash in Chosen(items, picks, r);
    }
  }

  /** The picks of a selection are determined. */
  lemma {:induction false} SelectionOnce(rules: Rules, items: seq<Item>, blocks: map<nat, Index>, start: int,
                                         prev: nat, a: seq<nat>, b: seq<nat>, n: nat)
    requires AllIndexed(items, blocks) && n <= |a| && n <= |b|
    requires Selection(rules, items, blocks, start, prev, a) && Selection(rules, items, blocks, start, prev, b)
    ensures a[..n] == b[..n]
  {
    hide IsPick, Keys, AllIndexed;
    if n > 0 {
      SelectionOnce(rules, items, blocks, start, prev, a, b, n - 1);
      assert forall r :: 0 <= r < n - 1 ==> a[r] == a[..n - 1][r] == b[r];
      assert Chosen(items, a, n - 1) == Chosen(items, b, n - 1);
      PickUnique(items, Chosen(items, a, n - 1), start + Sections(n), Keys(rules, items, blocks, prev),
                 a[n - 1], b[n - 1]);
    }
  }

  predicate HashesDistinct(items: seq<Item>) {
    forall i, j :: 0 <= i < j < |items| ==> items[i].hash != items[j].hash
  }

  /** As long as there are fewer picks than candidates, one is left. */
  lemma SomeLeft(items: seq<Item>, picks: seq<nat>)
    requires HashesDistinct(items)
    requires |picks| < |items| && forall r :: 0 <= r < |picks| ==> picks[r] < |items|
    ensures exists i :: 0 <= i < |items| && items[i].hash !in Chosen(items, picks, |picks|)
  {
    var chosen := Chosen(items, picks, |picks|);
    HashCount(items, |items|);
    ChosenCount(items, picks, |picks|);
    if HashSet(items, |items|) <= chosen {
      SubsetSmaller(HashSet(items, |items|), chosen);
      assert false;
    }
  }

  function HashSet(items: seq<Item>, n: nat): set<nat> {
    set i | 0 <= i < n && i < |items| :: items[i].hash
  }

  lemma {:induction false} HashCount(items: seq<Item>, n: nat)
    requires n <= |items| && HashesDistinct(items)
    ensures |HashSet(items, n)| == n
  {
    if n > 0 {
      HashCount(items, n - 1);
      HashSetMore(items, n - 1);
    } else {
      assert HashSet(items, n) == {};
    }
  }

  lemma HashSetMore(items: seq<Item>, n: nat)
    requires n < |items| && HashesDistinct(items)
    ensures HashSet(items, n + 1) == HashSet(items, n) + {items[n].hash} && items[n].hash !in HashSet(items, n)
  {
  }

  lemma {:induction false} ChosenCount(items: seq<Item>, picks: seq<nat>, n: nat)
    requires n <= |picks| && forall r :: 0 <= r < |picks| ==> picks[r] < |items|
    ensures |Chosen(items, picks, n)| <= n
  {
    if n > 0 {
      ChosenCount(items, picks, n - 1);
      assert Chosen(items, picks, n) == Chosen(items, picks, n - 1) + {items[picks[n - 1]].hash};
    } else {
      assert Chosen(items, picks, n) == {};
    }
  }

  /** All ancestors are indexed, under their hashes. */
  predicate Indexed(b: Option<Index>, blocks: map<nat, Index>)
    decreases b
  {
    b.Some? ==> b.value.hash in blocks && blocks[b.value.hash] == b.value && Indexed(b.value.pprev, blocks)
  }

  /** The candidates are indexed, and older than a block they are ancestors of, so none has its hash. */
  lemma {:induction false} RecentAre(b: Option<Index>, start: int, blocks: map<nat, Index>, bound: Index)
    requires Indexed(b, blocks) && (b.Some? ==> b.value < bound)
    ensures AllIndexed(Recent(b, start), blocks) && HashesDistinct(Recent(b, start))
    ensures forall i :: 0 <= i < |Recent(b, start)| ==> blocks[Recent(b, start)[i].hash] < bound
    decreases b
  {
    if b.Some? && b.value.nTime >= start {
      RecentAre(b.value.pprev, start, blocks, b.value);
      var rest := Recent(b.value.pprev, start);
      assert Recent(b, start) == [Item(b.value.nTime, b.value.hash)] + rest;
    }
  }

  /** So they are when sorted. */
  lemma SortedAre(items: seq<Item>, blocks: map<nat, Index>)
    requires AllIndexed(items, blocks) && HashesDistinct(items)
    ensures AllIndexed(Sorted(items), blocks) && HashesDistinct(Sorted(items)) && |Sorted(items)| == |items|
  {
    var sorted := Sorted(items);
    SortedKeeps(items);
    UniquePermuted(items, sorted);
    assert |sorted| == |multiset(sorted)|;
    forall i | 0 <= i < |sorted|
      ensures sorted[i] in items
    {
      assert sorted[i] in multiset(sorted);
    }
    forall i, j | 0 <= i < j < |sorted|
      ensures sorted[i].hash != sorted[j].hash
    {
      assert sorted[i] != sorted[j];
    }
  }

  // ---------------------------------------------------------------------------------------
  // ComputeNextStakeModifier

  /** The candidates for the modifier after a block, and the time their interval starts. */
  function Start(b: Index): int {
    b.nTime / MODIFIER_INTERVAL * MODIFIER_INTERVAL - Sections(ROUNDS)
  }

  /** That interval ends with the last full minute before the block. */
  lemma StartIs(b: Index)
    ensures var end := Start(b) + Sections(ROUNDS);
            end % MODIFIER_INTERVAL == 0 && end <= b.nTime < end + MODIFIER_INTERVAL
  {
    hide Sections, Section;
    FullMinute(Start(b) + Sections(ROUNDS), b.nTime);
  }

  lemma FullMinute(end: int, time: nat)
    requires end == time / 60 * 60
    ensures end % 60 == 0 && end <= time < end + 60
  {
  }

  function Candidates(b: Index): seq<Item> {
    Sorted(Recent(Some(b), Start(b)))
  }

  /** The modifier a selection makes. */
  ghost predicate IsNewModifier(rules: Rules, blocks: map<nat, Index>, b: Index, prev: nat, modifier: nat,
                                picks: seq<nat>)
  {
    && AllIndexed(Candidates(b), blocks)
    && Selection(rules, Candidates(b), blocks, Start(b), prev, picks)
    && |picks| == (if |Candidates(b)| < ROUNDS then |Candidates(b)| else ROUNDS)
    && modifier == Pack(EntropyBits(Candidates(b), picks))
  }

  /** Each pick of a new modifier is the favoured of the candidates not picked before. */
  lemma PicksAreFavoured(rules: Rules, blocks: map<nat, Index>, b: Index, prev: nat, modifier: nat, picks: seq<nat>)
    requires IsNewModifier(rules, blocks, b, prev, modifier, picks)
    ensures forall r :: 0 <= r < |picks| ==>
              Favoured(rules, Candidates(b), blocks, Chosen(Candidates(b), picks, r), Start(b) + Sections(r + 1), prev,
                       picks[r])
  {
    hide Favoured, IsPick, Keys, Chosen, Sections, Candidates, Start, AllIndexed;
    var items := Candidates(b);
    forall r | 0 <= r < |picks|
      ensures Favoured(rules, items, blocks, Chosen(items, picks, r), Start(b) + Sections(r + 1), prev, picks[r])
    {
      PickIsFavoured(rules, items, blocks, Chosen(items, picks, r), Start(b) + Sections(r + 1), prev, picks[r]);
    }
  }

  /** The rounds of the selection: none fails. */
  method Select(rules: Rules, blocks: map<nat, Index>, items: seq<Item>, start: int, prev: nat)
      returns (ok: bool, nStakeModifierNew: nat, picks: seq<nat>)
    requires IsSorted(Less, items) && AllIndexed(items, blocks) && HashesDistinct(items)
    ensures ok && Selection(rules, items, blocks, start, prev, picks)
    ensures |picks| == if |items| < ROUNDS then |items| else ROUNDS
    ensures nStakeModifierNew == Pack(EntropyBits(items, picks))
  {
    hide Keys, Key, Pack, Pow, Favoured, IsPick, Section, Sections, EntropyBits, Chosen, Selection;
    nStakeModifierNew := 0;
    NoBits(items);
    SectionsStep(0);
    NothingSelected(rules, items, blocks, start, prev);
    var nSelectionIntervalStop := start;
    var mapSelectedBlocks: set<nat> := {};
    picks := [];
    var rounds := if |items| < ROUNDS then |items| else ROUNDS;
    for nRound := 0 to rounds
      invariant |picks| == nRound && forall r :: 0 <= r < |picks| ==> picks[r] < |items|
      invariant Selection(rules, items, blocks, start, prev, picks)
      invariant nSelectionIntervalStop == start + Sections(nRound)
      invariant mapSelectedBlocks == Chosen(items, picks, nRound)
      invariant nStakeModifierNew == Pack(EntropyBits(items, picks))
    {
      nSelectionIntervalStop := nSelectionIntervalStop + Section(nRound);
      SectionsStep(nRound);
      SomeLeft(items, picks);
      var pick := SelectBlock(rules, items, blocks, mapSelectedBlocks, nSelectionIntervalStop, prev);
      var b := blocks[items[pick.value].hash];
      SelectionMore(rules, items, blocks, start, prev, picks, pick.value);
      if b.hash % 2 == 1 {
        nStakeModifierNew := nStakeModifierNew + Pow(2, nRound);
      }
      mapSelectedBlocks := mapSelectedBlocks + {b.hash};
      picks := picks + [pick.value];
    }
    ok := true;
  }

  lemma SectionsStep(n: nat)
    requires n < ROUNDS
    ensures Sections(0) == 0 && Sections(n + 1) == Sections(n) + Section(n)
  {
  }

  lemma NothingSelected(rules: Rules, items: seq<Item>, blocks: map<nat, Index>, start: int, prev: nat)
    requires AllIndexed(items, blocks)
    ensures Selection(rules, items, blocks, start, prev, []) && Chosen(items, [], 0) == {}
  {
  }

  lemma NoBits(items: seq<Item>)
    ensures Pack(EntropyBits(items, [])) == 0
  {
  }

  lemma SelectionMore(rules: Rules, items: seq<Item>, blocks: map<nat, Index>, start: int, prev: nat,
                      picks: seq<nat>, i: nat)
    requires AllIndexed(items, blocks) && Selection(rules, items, blocks, start, prev, picks) && |picks| < ROUNDS
    requires i < |items|
    requires IsPick(items, Chosen(items, picks, |picks|), start + Sections(|picks| + 1),
                    Keys(rules, items, blocks, prev), i)
    ensures var more := picks + [i];
            && Selection(rules, items, blocks, start, prev, more)
            && Chosen(items, more, |more|) == Chosen(items, picks, |picks|) + {items[i].hash}
            && Pack(EntropyBits(items, more))
               == Pack(EntropyBits(items, picks)) + if items[i].hash % 2 == 1 then Pow(2, |picks|) else 0
  {
    hide IsPick, Keys, Chosen, EntropyBits, Pack, Sections, AllIndexed;
    var more := picks + [i];
    forall r | 0 <= r <= |picks|
      ensures Chosen(items, more, r) == Chosen(items, picks, r)
    {
      ChosenSame(items, picks, i, r);
    }
    ChosenMore(items, more);
    BitsMore(items, picks, i);
    forall r | 0 <= r < |more|
      ensures IsPick(items, Chosen(items, more, r), start + Sections(r + 1), Keys(rules, items, blocks, prev), more[r])
    {
      if r < |picks| {
        assert more[r] == picks[r];
      }
    }
  }

  lemma ChosenSame(items: seq<Item>, picks: seq<nat>, i: nat, r: nat)
    requires i < |items| && r <= |picks| && forall q :: 0 <= q < |picks| ==> picks[q] < |items|
    ensures Chosen(items, picks + [i], r) == Chosen(items, picks, r)
  {
    assert forall q :: 0 <= q < r ==> (picks + [i])[q] == picks[q];
  }

  lemma ChosenMore(items: seq<Item>, picks: seq<nat>)
    requires picks != [] && forall q :: 0 <= q < |picks| ==> picks[q] < |items|
    ensures Chosen(items, picks, |picks|) == Chosen(items, picks, |picks| - 1) + {items[picks[|picks| - 1]].hash}
  {
  }

  lemma BitsAre(items: seq<Item>, picks: seq<nat>, i: nat)
    requires i < |items| && forall q :: 0 <= q < |picks| ==> picks[q] < |items|
    ensures EntropyBits(items, picks + [i]) == EntropyBits(items, picks) + [items[i].hash % 2 == 1]
  {
  }

  lemma BitsMore(items: seq<Item>, picks: seq<nat>, i: nat)
    requires i < |items| && forall q :: 0 <= q < |picks| ==> picks[q] < |items|
    ensures Pack(EntropyBits(items, picks + [i]))
            == Pack(EntropyBits(items, picks)) + if items[i].hash % 2 == 1 then Pow(2, |picks|) else 0
  {
    hide Pack, Pow;
    BitsAre(items, picks, i);
    PackPlus(EntropyBits(items, picks), items[i].hash % 2 == 1);
  }

  /** ComputeNextStakeModifier. */
  method ComputeNext(rules: Rules, blocks: map<nat, Index>, pindexPrev: Option<Index>)
      returns (ok: bool, nStakeModifier: nat, fGenerated: bool, picks: seq<nat>)
    requires Indexed(pindexPrev, blocks)
    ensures pindexPrev == None ==> ok && fGenerated && nStakeModifier == 0
    ensures pindexPrev.Some? && pindexPrev.value.nHeight == 2 ==>
              ok && fGenerated && nStakeModifier == rules.nModifierAtThree
    ensures pindexPrev.Some? && pindexPrev.value.nHeight != 2 ==>
              match Generator(pindexPrev.value)
              case None => !ok
              case Some(last) =>
                && ok && fGenerated == (last.nTime / MODIFIER_INTERVAL < pindexPrev.value.nTime / MODIFIER_INTERVAL)
                && (if fGenerated
                    then IsNewModifier(rules, blocks, pindexPrev.value, last.nStakeModifier, nStakeModifier, picks)
                    else nStakeModifier == last.nStakeModifier)
  {
    hide IsNewModifier;
    nStakeModifier, fGenerated, picks := 0, false, [];
    if pindexPrev == None {
      return true, 0, true, [];
    }
    var b := pindexPrev.value;
    if b.nHeight == 2 {
      return true, rules.nModifierAtThree, true, [];
    }
    var last := GetLastStakeModifier(b);
    if last == None {
      ok := false;
      return;
    }
    nStakeModifier := last.value.nStakeModifier;
    if last.value.nTime / MODIFIER_INTERVAL >= b.nTime / MODIFIER_INTERVAL {
      ok := true;
      return;
    }
    nStakeModifier, picks := MakeModifier(rules, blocks, b, nStakeModifier);
    ok, fGenerated := true, true;
  }

  /** The part of ComputeNextStakeModifier that makes a new modifier; it does not fail. */
  method MakeModifier(rules: Rules, blocks: map<nat, Index>, b: Index, prev: nat)
      returns (nStakeModifier: nat, picks: seq<nat>)
    requires Indexed(Some(b), blocks)
    ensures IsNewModifier(rules, blocks, b, prev, nStakeModifier, picks)
  {
    hide Indexed, Selection, AllIndexed, HashesDistinct, Sorted, Recent, Section, Sections;
    var nSelectionInterval := SelectionInterval();
    var start := b.nTime / MODIFIER_INTERVAL * MODIFIER_INTERVAL - nSelectionInterval;
    var items := Collect(b, start);
    OldestFirst(items);
    var sorted := Sorted(Reverse(items));
    SortedKeeps(Reverse(items));
    CandidatesAre(b, blocks);
    var ok;
    ok, nStakeModifier, picks := Select(rules, blocks, sorted, start, prev);
  }

  /** Reversing first makes no difference to what is sorted. */
  lemma OldestFirst(items: seq<Item>)
    ensures Sorted(Reverse(items)) == Sorted(items)
  {
    ReverseIs(items);
    SortedKeeps(Reverse(items));
    SortedKeeps(items);
    LessIsTotal(Sorted(Reverse(items)));
    SortedOnce(Less, Sorted(Reverse(items)), Sorted(items));
  }

  lemma CandidatesAre(b: Index, blocks: map<nat, Index>)
    requires Indexed(Some(b), blocks)
    ensures AllIndexed(Candidates(b), blocks) && HashesDistinct(Candidates(b))
  {
    var after := Index(0, 0, 0, false, false, 0, Some(b));
    RecentAre(Some(b), Start(b), blocks, after);
    SortedAre(Recent(Some(b), Start(b)), blocks);
  }

  /** The candidates are the recent blocks from the oldest on, and of equal age by hash. */
  lemma CandidatesAscend(b: Index)
    ensures multiset(Candidates(b)) == multiset(Recent(Some(b), Start(b)))
    ensures forall i, j :: 0 <= i < j < |Candidates(b)| ==>
              var (p, q) := (Candidates(b)[i], Candidates(b)[j]);
              p.nTime < q.nTime || (p.nTime == q.nTime && p.hash <= q.hash)
  {
    SortedKeeps(Recent(Some(b), Start(b)));
    forall i, j | 0 <= i < j < |Candidates(b)|
      ensures !Less(Candidates(b)[j], Candidates(b)[i])
    {
    }
  }

  /** The new modifier is determined by the set of candidates: two tips with the same candidates, interval and
      last modifier give the same. Its bits beyond the candidates are zero. */
  lemma ModifierOnce(rules: Rules, blocks: map<nat, Index>, a: Index, b: Index, prev: nat, m: nat, n: nat,
                     p: seq<nat>, q: seq<nat>)
    requires IsNewModifier(rules, blocks, a, prev, m, p) && IsNewModifier(rules, blocks, b, prev, n, q)
    requires Start(a) == Start(b)
    requires multiset(Recent(Some(a), Start(a))) == multiset(Recent(Some(b), Start(b)))
    ensures m == n && p == q
    ensures m < Pow(2, |p|) <= Pow(2, ROUNDS)
    ensures forall r :: 0 <= r < |p| ==> Bit(m, r) == (Candidates(a)[p[r]].hash % 2 == 1)
  {
    hide IsPick, Keys, Sorted, Recent, Pack, Bit, Section, Sections;
    SortedKeeps(Recent(Some(a), Start(a)));
    SortedKeeps(Recent(Some(b), Start(b)));
    LessIsTotal(Candidates(a));
    SortedOnce(Less, Candidates(a), Candidates(b));
    SelectionOnce(rules, Candidates(a), blocks, Start(a), prev, p, q, |p|);
    assert p[..|p|] == p && q[..|q|] == q;
    forall r | 0 <= r < |p|
      ensures Bit(m, r) == (Candidates(a)[p[r]].hash % 2 == 1)
    {
      BitOfPack(EntropyBits(Candidates(a), p), r);
    }
    PowGrows(2, |p|, ROUNDS);
  }

  // ---------------------------------------------------------------------------------------
  // GetKernelStakeModifier

  /** The first block of the chain, from a height on, that generated a modifier at a time or later. */
  function FirstGenerated(chain: seq<Index>, h: nat, time: int): (r: Option<nat>)
    ensures r.Some? ==> h <= r.value < |chain| && chain[r.value].fGenerated && chain[r.value].nTime >= time
    ensures forall i :: h <= i < (if r.Some? then r.value else |chain|) ==>
              !(chain[i].fGenerated && chain[i].nTime >= time)
    decreases |chain| - h
  {
    if h >= |chain| then None
    else if chain[h].fGenerated && chain[h].nTime >= time then Some(h)
    else FirstGenerated(chain, h + 1, time)
  }

  /** The modifier generated a selection interval later than a block, if the chain reaches so far, with the height and
      time of the block that generated it. */
  function LaterModifier(chain: seq<Index>, from: Index): Option<(nat, nat, nat)> {
    match FirstGenerated(chain, from.nHeight + 1, from.nTime + Sections(ROUNDS))
    case None => None
    case Some(i) => Some((chain[i].nStakeModifier, chain[i].nHeight, chain[i].nTime))
  }

  /** GetKernelStakeModifier: fails for a block that is not indexed or before proof of stake, and where the chain does
      not reach a selection interval beyond the block; the regression test network uses the block's own modifier. */
  method GetKernelModifier(rules: Rules, blocks: map<nat, Index>, chain: seq<Index>, hashBlockFrom: nat)
      returns (r: Option<(nat, nat, nat)>)
    requires forall i :: 0 <= i < |chain| ==> chain[i].nHeight == i
    ensures hashBlockFrom !in blocks ==> r == None
    ensures hashBlockFrom in blocks ==>
              var from := blocks[hashBlockFrom];
              r == if from.nHeight < rules.firstPosBlock then None
                   else if rules.isRegtest then Some((from.nStakeModifier, from.nHeight, from.nTime))
                   else LaterModifier(chain, from)
    ensures hashBlockFrom in blocks && blocks[hashBlockFrom].nHeight >= rules.firstPosBlock && !rules.isRegtest ==>
              var (from, end) := (blocks[hashBlockFrom].nHeight, blocks[hashBlockFrom].nTime + Sections(ROUNDS));
              match r
              case None => forall i :: from < i < |chain| ==> !(chain[i].fGenerated && chain[i].nTime >= end)
              case Some((modifier, height, time)) =>
                && from < height < |chain| && chain[height].fGenerated && time == chain[height].nTime >= end
                && modifier == chain[height].nStakeModifier
                && forall i :: from < i < height ==> !(chain[i].fGenerated && chain[i].nTime >= end)
  {
    if hashBlockFrom !in blocks {
      return None;
    }
    var from := blocks[hashBlockFrom];
    if from.nHeight < rules.firstPosBlock {
      return None;
    }
    if rules.isRegtest {
      return Some((from.nStakeModifier, from.nHeight, from.nTime));
    }
    r := FindLater(chain, from);
  }

  /** Its loop over the active chain. */
  method FindLater(chain: seq<Index>, from: Index) returns (r: Option<(nat, nat, nat)>)
    requires forall i :: 0 <= i < |chain| ==> chain[i].nHeight == i
    ensures r == LaterModifier(chain, from)
  {
    hide Section, Sections;
    SectionsPositive(ROUNDS);
    var nSelectionInterval := SelectionInterval();
    var nHeight, nTime := from.nHeight, from.nTime;
    var pindex := from;
    var next := from.nHeight + 1;
    ghost var h := from.nHeight;
    while nTime < from.nTime + nSelectionInterval
      invariant next == h + 1 && h >= from.nHeight
      invariant FirstGenerated(chain, from.nHeight + 1, from.nTime + nSelectionInterval)
                == if nTime < from.nTime + nSelectionInterval
                   then FirstGenerated(chain, next, from.nTime + nSelectionInterval) else Some(h)
      invariant nTime >= from.nTime + nSelectionInterval ==>
                  h < |chain| && pindex == chain[h] && nHeight == h && nTime == pindex.nTime
      decreases |chain| - h, if nTime < from.nTime + nSelectionInterval then 1 else 0
    {
      if next >= |chain| {
        return None;
      }
      pindex := chain[next];
      next := pindex.nHeight + 1;
      h := pindex.nHeight;
      if pindex.fGenerated {
        nHeight, nTime := pindex.nHeight, pindex.nTime;
      }
    }
    r := Some((pindex.nStakeModifier, nHeight, nTime));
  }

  lemma {:induction false} SectionsPositive(n: nat)
    requires 0 < n <= ROUNDS
    ensures Sections(n) > 0
  {
    if n > 1 {
      SectionsPositive(n - 1);
    }
  }
}
