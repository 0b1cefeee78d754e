/** The block index tree with its skip pointers (src/main.cpp) and the active chain (src/chain.h, src/chain.cpp).
    There is one index entry to a block hash, so entries are compared as values. */
module Chain {
  import opened Radix
  import opened Wrappers

  /** CBlockIndex: a block with the pointers to its parent and, further back, to another ancestor. */
  datatype CBlockIndex = Genesis(hash: int) | Block(hash: int, pprev: CBlockIndex, pskip: CBlockIndex)

  /** nHeight. */
  function Height(b: CBlockIndex): nat {
    match b
    case Genesis(_) => 0
    case Block(_, pprev, _) => Height(pprev) + 1
  }

  /** The ancestors of a block from the genesis block to itself: what walking pprev visits. */
  function Path(b: CBlockIndex): (s: seq<CBlockIndex>)
    ensures |s| == Height(b) + 1 && s[Height(b)] == b
  {
    match b
    case Genesis(_) => [b]
    case Block(_, pprev, _) => Path(pprev) + [b]
  }

  lemma {:induction false} PathOfPath(b: CBlockIndex, h: nat)
    requires h <= Height(b)
    ensures Height(Path(b)[h]) == h && Path(Path(b)[h]) == Path(b)[..h + 1]
  {
    if h < Height(b) {
      PathOfPath(b.pprev, h);
      assert Path(b)[..h + 1] == Path(b.pprev)[..h + 1];
    }
  }

  lemma ParentOnPath(b: CBlockIndex, h: nat)
    requires 0 < h <= Height(b)
    ensures Path(b)[h].Block? && Path(b)[h].pprev == Path(b)[h - 1]
  {
    PathOfPath(b, h);
    var a := Path(b)[h];
    assert Path(a)[h - 1] == Path(a.pprev)[h - 1];
    assert Path(a) == Path(b)[..h + 1];
  }

  /** b is an ancestor of c, or c itself. */
  predicate IsAncestor(b: CBlockIndex, c: CBlockIndex) {
    Height(b) <= Height(c) && Path(c)[Height(b)] == b
  }

  // ---------------------------------------------------------------------------------------
  // Skip pointers

  /** n & (n - 1), for a number that is not negative. */
  function InvertLowestOne(n: nat): (m: nat)
    ensures n > 0 ==> m < n
    ensures m % 2 == 0
  {
    if n == 0 then 0 else if n % 2 == 1 then n - 1 else 2 * InvertLowestOne(n / 2)
  }

  function GetSkipHeight(height: int): (h: nat)
    ensures height >= 1 ==> h < height
  {
    if height < 2 then 0
    else if height % 2 == 1 then InvertLowestOne(InvertLowestOne(height - 1)) + 1
    else InvertLowestOne(height)
  }

  /** It clears the lowest bit that is set. */
  lemma {:induction false} LowestCleared(a: nat, k: nat)
    ensures InvertLowestOne((2 * a + 1) * Pow(2, k)) == 2 * a * Pow(2, k)
  {
    if k == 0 {
      assert Pow(2, 0) == 1;
    } else {
      LowestCleared(a, k - 1);
      var p := Pow(2, k - 1);
      assert Pow(2, k) == 2 * p;
      Halved(a, p, Pow(2, k));
    }
  }

  lemma Halved(a: nat, p: nat, q: nat)
    requires q == 2 * p && p > 0
    ensures (2 * a + 1) * q == 2 * ((2 * a + 1) * p) && 2 * a * q == 2 * (2 * a * p) && (2 * a + 1) * p > 0
  {
  }

  /** A skip pointer of an even height clears its lowest bit; one of an odd height clears the two next to the
      lowest, and keeps that. */
  lemma SkipClears(a: nat, k: nat)
    requires k > 0
    ensures var height := (2 * a + 1) * Pow(2, k);
            GetSkipHeight(height) == 2 * a * Pow(2, k)
            && GetSkipHeight(height + 1) == InvertLowestOne(2 * a * Pow(2, k)) + 1
  {
    hide InvertLowestOne, GetSkipHeight;
    LowestCleared(a, k);
    var p := Pow(2, k - 1);
    assert Pow(2, k) == 2 * p;
    Halved(a, p, Pow(2, k));
    SkipOfEven((2 * a + 1) * Pow(2, k), (2 * a + 1) * p);
  }

  lemma SkipOfEven(height: nat, half: nat)
    requires height == 2 * half && half > 0
    ensures GetSkipHeight(height) == InvertLowestOne(height)
    ensures GetSkipHeight(height + 1) == InvertLowestOne(InvertLowestOne(height)) + 1
  {
    hide InvertLowestOne;
  }

  /** Every skip pointer is where BuildSkip puts it. */
  ghost predicate Skips(b: CBlockIndex) {
    b.Block? ==>
      && b.pskip == Path(b.pprev)[GetSkipHeight(Height(b))]
      && Skips(b.pprev) && Skips(b.pskip)
  }

  /** The skip condition of GetAncestor. */
  predicate FollowSkip(heightSkip: int, heightSkipPrev: int, height: int) {
    heightSkip == height
    || (heightSkip > height && !(heightSkipPrev < heightSkip - 2 && heightSkipPrev >= height))
  }

  /** GetAncestor: whatever pointers it follows, it comes to the ancestor at that height. */
  method GetAncestor(b: CBlockIndex, height: int) returns (r: Option<CBlockIndex>)
    requires Skips(b)
    ensures r == if 0 <= height <= Height(b) then Some(Path(b)[height]) else None
  {
    if height > Height(b) || height < 0 {
      return None;
    }
    var pindexWalk := b;
    var heightWalk := Height(b);
    while heightWalk > height
      invariant height <= heightWalk == Height(pindexWalk) <= Height(b)
      invariant pindexWalk == Path(b)[heightWalk] && Skips(pindexWalk)
    {
      var heightSkip := GetSkipHeight(heightWalk);
      var heightSkipPrev := GetSkipHeight(heightWalk - 1);
      PathOfPath(b, heightWalk);
      ParentOnPath(b, heightWalk);
      PathOfPath(b, heightWalk - 1);
      if FollowSkip(heightSkip, heightSkipPrev, height) {
        PathOfPath(b, heightSkip);
        assert Path(pindexWalk.pprev)[heightSkip] == Path(b)[heightSkip];
        pindexWalk := pindexWalk.pskip;
        heightWalk := heightSkip;
      } else {
        pindexWalk := pindexWalk.pprev;
        heightWalk := heightWalk - 1;
      }
    }
    r := Some(pindexWalk);
  }

  /** A new block with the skip pointer that BuildSkip gives it. */
  method NewBlock(hash: int, pprev: CBlockIndex) returns (b: CBlockIndex)
    requires Skips(pprev)
    ensures b.Block? && b.hash == hash && b.pprev == pprev && Skips(b)
  {
    var pskip := GetAncestor(pprev, GetSkipHeight(Height(pprev) + 1));
    b := Block(hash, pprev, pskip.value);
    SkipsBack(pprev, GetSkipHeight(Height(pprev) + 1));
  }

  lemma {:induction false} SkipsBack(b: CBlockIndex, h: nat)
    requires Skips(b) && h <= Height(b)
    ensures Skips(Path(b)[h])
  {
    if h < Height(b) {
      SkipsBack(b.pprev, h);
    }
  }

  // ---------------------------------------------------------------------------------------
  // Common ancestors

  /** The highest block that is an ancestor of both. */
  ghost predicate HighestCommon(r: CBlockIndex, a: CBlockIndex, b: CBlockIndex) {
    && IsAncestor(r, a) && IsAncestor(r, b)
    && forall c :: IsAncestor(c, a) && IsAncestor(c, b) ==> Height(c) <= Height(r)
  }

  lemma CommonBelow(a: CBlockIndex, b: CBlockIndex, h: nat, k: nat)
    requires k <= h <= Height(a) && h <= Height(b) && Path(a)[h] == Path(b)[h]
    ensures Path(a)[k] == Path(b)[k]
  {
    PathOfPath(a, h);
    PathOfPath(b, h);
    assert Path(a)[..h + 1][k] == Path(b)[..h + 1][k];
  }

  /** LastCommonAncestor, of two blocks over the same genesis block; its assertion holds. */
  method LastCommonAncestor(a: CBlockIndex, b: CBlockIndex) returns (r: CBlockIndex)
    requires Skips(a) && Skips(b) && Path(a)[0] == Path(b)[0]
    ensures HighestCommon(r, a, b)
  {
    hide Path, Skips;
    var pa, pb := a, b;
    if Height(pa) > Height(pb) {
      PathOfPath(a, Height(b));
      var up := GetAncestor(pa, Height(pb));
      pa := up.value;
    } else if Height(pb) > Height(pa) {
      PathOfPath(b, Height(a));
      var up := GetAncestor(pb, Height(pa));
      pb := up.value;
    }
    r := WalkBack(a, b, pa, pb);
  }

  /** The loop of LastCommonAncestor. */
  method WalkBack(a: CBlockIndex, b: CBlockIndex, fromA: CBlockIndex, fromB: CBlockIndex) returns (r: CBlockIndex)
    requires Path(a)[0] == Path(b)[0]
    requires Height(fromA) == Height(fromB) <= Height(a) && Height(fromB) <= Height(b)
    requires Height(fromA) == Height(a) || Height(fromB) == Height(b)
    requires fromA == Path(a)[Height(fromA)] && fromB == Path(b)[Height(fromB)]
    ensures HighestCommon(r, a, b)
  {
    hide Path;
    var pa, pb := fromA, fromB;
    while pa != pb
      invariant Height(pa) == Height(pb) <= Height(a) && Height(pb) <= Height(b)
      invariant pa == Path(a)[Height(pa)] && pb == Path(b)[Height(pb)]
      invariant forall h: nat :: Height(pa) < h <= Height(a) && h <= Height(b) ==> Path(a)[h] != Path(b)[h]
      decreases Height(pa)
    {
      assert Height(pa) > 0;
      ParentOnPath(a, Height(pa));
      ParentOnPath(b, Height(pb));
      pa, pb := pa.pprev, pb.pprev;
    }
    r := pa;
    forall c | IsAncestor(c, a) && IsAncestor(c, b)
      ensures Height(c) <= Height(r)
    {
      assert Path(a)[Height(c)] == Path(b)[Height(c)];
    }
  }

  // ---------------------------------------------------------------------------------------
  // The active chain

  class CChain {
    var vChain: seq<Option<CBlockIndex>>

    /** The chain is all ancestors of its tip, or empty. */
    ghost predicate Valid()
      reads this
    {
      vChain == [] || (vChain[|vChain| - 1].Some? && vChain == Entries(Path(vChain[|vChain| - 1].value)))
    }

    constructor ()
      ensures vChain == [] && Valid()
    {
      vChain := [];
    }

    function At(nHeight: int): Option<CBlockIndex>
      reads this
    {
      if nHeight < 0 || nHeight >= |vChain| then None else vChain[nHeight]
    }

    predicate Contains(b: CBlockIndex)
      reads this
    {
      At(Height(b)) == Some(b)
    }

    function Tip(): Option<CBlockIndex>
      reads this
    {
      if |vChain| < 1 then None else vChain[|vChain| - 1]
    }

    /** SetTip. It stops at the first block that is in place already. */
    method SetTip(pindex: Option<CBlockIndex>)
      requires Valid()
      modifies this
      ensures Valid()
      ensures vChain == if pindex == None then [] else Entries(Path(pindex.value))
      ensures Tip() == pindex
    {
      if pindex == None {
        vChain := [];
        return;
      }
      var tip := pindex.value;
      ghost var before := vChain;
      var size := Height(tip) + 1;
      vChain := if |vChain| >= size then vChain[..size] else vChain + seq(size - |vChain|, i => None);
      var walk := pindex;
      while walk.Some? && vChain[Height(walk.value)] != walk
        invariant |vChain| == size
        invariant Overwritten(before, vChain, tip, walk)
        decreases if walk.Some? then 1 + Height(walk.value) else 0
      {
        OverwriteMore(before, vChain, tip, walk.value);
        var b := walk.value;
        vChain := vChain[Height(b) := walk];
        walk := if b.Block? then Some(b.pprev) else None;
      }
      OverwriteDone(before, vChain, tip, walk);
      assert vChain[size - 1] == Some(tip);
    }

    /** FindFork: the highest ancestor that is in the chain. */
    method FindFork(pindex: CBlockIndex) returns (r: Option<CBlockIndex>)
      requires Valid() && Skips(pindex)
      ensures r.Some? ==> IsAncestor(r.value, pindex) && Contains(r.value)
      ensures forall c :: IsAncestor(c, pindex) && Contains(c) ==> r.Some? && Height(c) <= Height(r.value)
      ensures r.Some? && Tip().Some? ==> HighestCommon(r.value, pindex, Tip().value)
    {
      hide Path, Skips;
      var walk := Some(pindex);
      forall i | 0 <= i <= Height(pindex)
        ensures Height(Path(pindex)[i]) == i
      {
        PathOfPath(pindex, i);
      }
      if Height(pindex) > |vChain| - 1 {
        walk := GetAncestor(pindex, |vChain| - 1);
      }
      while walk.Some? && !Contains(walk.value)
        invariant walk.Some? ==> IsAncestor(walk.value, pindex)
        invariant var h := if walk.Some? then Height(walk.value) else -1;
                  forall i :: h < i <= Height(pindex) ==> !Contains(Path(pindex)[i])
        decreases if walk.Some? then 1 + Height(walk.value) else 0
      {
        var b := walk.value;
        if b.Block? {
          ParentOnPath(pindex, Height(b));
        }
        walk := if b.Block? then Some(b.pprev) else None;
      }
      r := walk;
      forall c | IsAncestor(c, pindex) && Contains(c)
        ensures r.Some? && Height(c) <= Height(r.value)
      {
        assert Path(pindex)[Height(c)] == c;
      }
      if Tip().Some? {
        forall c
          ensures IsAncestor(c, Tip().value) <==> Contains(c)
        {
          InChain(c);
        }
      }
    }

    /** GetLocator, of a block or by default the tip. */
    method GetLocator(start: Option<CBlockIndex>) returns (vHave: seq<int>)
      requires Valid() && (start.Some? ==> Skips(start.value)) && (Tip().Some? ==> Skips(Tip().value))
      ensures vHave == match if start.Some? then start else Tip()
                       case None => []
                       case Some(b) => LocatorFor(b, Height(b), 1, 1)
    {
      hide Skips, Path, LocatorFor, Valid;
      var first := if start.Some? then start else Tip();
      vHave := [];
      if first == None {
        return;
      }
      ghost var b := first.value;
      var pindex := first.value;
      var nStep: nat := 1;
      assert vHave + LocatorFor(b, Height(b), 1, 1) == LocatorFor(b, Height(b), 1, 1);
      while true
        invariant IsAncestor(pindex, b) && nStep >= 1
        invariant vHave + LocatorFor(b, Height(pindex), nStep, |vHave| + 1) == LocatorFor(b, Height(b), 1, 1)
        decreases Height(pindex)
      {
        LocatorStep(b, pindex, nStep, vHave);
        vHave := vHave + [pindex.hash];
        if Height(pindex) == 0 {
          return;
        }
        var nHeight := if Height(pindex) > nStep then Height(pindex) - nStep else 0;
        pindex := StepBack(b, pindex, nHeight);
        if |vHave| > 10 {
          nStep := nStep * 2;
        }
      }
    }

    /** The chain is used where it can be, the skip pointers otherwise. */
    method StepBack(ghost b: CBlockIndex, pindex: CBlockIndex, nHeight: nat) returns (r: CBlockIndex)
      requires Valid() && Skips(b) && IsAncestor(pindex, b) && nHeight < Height(pindex)
      ensures r == Path(b)[nHeight] && Height(r) == nHeight
    {
      hide Path, Skips;
      PathOfPath(b, Height(pindex));
      PathOfPath(b, nHeight);
      if Contains(pindex) {
        CommonBelow(vChain[|vChain| - 1].value, b, Height(pindex), nHeight);
        r := At(nHeight).value;
      } else {
        SkipsBack(b, Height(pindex));
        var up := GetAncestor(pindex, nHeight);
        r := up.value;
      }
    }

    /** What the chain contains is the ancestors of its tip. */
    lemma InChain(c: CBlockIndex)
      requires Valid() && Tip().Some?
      ensures IsAncestor(c, Tip().value) <==> Contains(c)
    {
      hide Path;
    }
  }

  // ---------------------------------------------------------------------------------------
  // Locators

  /** The heights of a locator from one on, with the step so far and the number of the entry. */
  function Locator(h: nat, step: nat, size: nat): (s: seq<nat>)
    requires step > 0
    ensures s != [] && s[0] == h && forall i :: 0 <= i < |s| ==> s[i] <= h
  {
    [h] + if h == 0 then []
          else Locator(if h > step then h - step else 0, if size > 10 then 2 * step else step, size + 1)
  }

  /** The hashes of ancestors of a block at given heights. */
  function Hashes(b: CBlockIndex, heights: seq<nat>): (s: seq<int>)
    requires forall i :: 0 <= i < |heights| ==> heights[i] <= Height(b)
    ensures |s| == |heights|
  {
    seq(|heights|, i requires 0 <= i < |heights| => Path(b)[heights[i]].hash)
  }

  /** The hashes of the rest of a locator. */
  function LocatorFor(b: CBlockIndex, h: nat, step: nat, size: nat): seq<int>
    requires h <= Height(b) && step > 0
  {
    Hashes(b, Locator(h, step, size))
  }

  lemma LocatorStep(b: CBlockIndex, pindex: CBlockIndex, step: nat, have: seq<int>)
    requires IsAncestor(pindex, b) && step > 0
    ensures var h := Height(pindex);
            have + LocatorFor(b, h, step, |have| + 1)
            == if h == 0 then have + [pindex.hash]
               else have + [pindex.hash]
                    + LocatorFor(b, if h > step then h - step else 0, if |have| + 1 > 10 then 2 * step else step,
                                 |have| + 2)
  {
    hide Path, Hashes;
    var h := Height(pindex);
    var rest := if h == 0 then [] else
      Locator(if h > step then h - step else 0, if |have| + 1 > 10 then 2 * step else step, |have| + 2);
    assert Locator(h, step, |have| + 1) == [h] + rest;
    HashesPlus(b, h, rest);
    assert have + ([pindex.hash] + Hashes(b, rest)) == have + [pindex.hash] + Hashes(b, rest);
  }

  lemma HashesPlus(b: CBlockIndex, h: nat, heights: seq<nat>)
    requires h <= Height(b) && forall i :: 0 <= i < |heights| ==> heights[i] <= Height(b)
    ensures Hashes(b, [h] + heights) == [Path(b)[h].hash] + Hashes(b, heights)
  {
    hide Path;
  }

  /** How far back an entry of a locator is: one block each for the first, then doubling. */
  function Back(i: nat): nat {
    if i < 10 then i else 9 + Pow(2, i - 10)
  }

  /** The height of an entry. */
  function HeightAt(h: nat, i: nat): nat {
    if h > Back(i) then h - Back(i) else 0
  }

  lemma BackStep(i: nat)
    ensures Back(i) < Back(i + 1) < Back(i + 2)
    ensures Back(i + 2) - Back(i + 1) == if i + 1 > 10 then 2 * (Back(i + 1) - Back(i)) else Back(i + 1) - Back(i)
  {
    assert Pow(2, 0) == 1 && Pow(2, 1) == 2;
  }

  /** The entries from the i-th on, down to the genesis block and no further. */
  ghost predicate EntriesFrom(s: seq<nat>, h: nat, i: nat) {
    && s != [] && s[|s| - 1] == 0
    && forall j :: 0 <= j < |s| ==> s[j] == HeightAt(h, i + j) && (j < |s| - 1 ==> s[j] > 0)
  }

  lemma EntriesMore(s: seq<nat>, h: nat, i: nat)
    requires EntriesFrom(s, h, i + 1) && HeightAt(h, i) > 0
    ensures EntriesFrom([HeightAt(h, i)] + s, h, i)
  {
    hide HeightAt;
    var more := [HeightAt(h, i)] + s;
    forall j | 0 <= j < |more|
      ensures more[j] == HeightAt(h, i + j) && (j < |more| - 1 ==> more[j] > 0)
    {
      if j > 0 {
        assert more[j] == s[j - 1] && i + 1 + (j - 1) == i + j;
      }
    }
  }

  lemma {:induction false} LocatorFrom(h: nat, i: nat)
    ensures Back(i) < Back(i + 1)
    ensures EntriesFrom(Locator(HeightAt(h, i), Back(i + 1) - Back(i), i + 1), h, i)
    decreases HeightAt(h, i)
  {
    hide Back, EntriesFrom;
    BackStep(i);
    if HeightAt(h, i) > 0 {
      LocatorFrom(h, i + 1);
      EntriesMore(Locator(HeightAt(h, i + 1), Back(i + 2) - Back(i + 1), i + 2), h, i);
      assert Locator(HeightAt(h, i), Back(i + 1) - Back(i), i + 1)
             == [HeightAt(h, i)] + Locator(HeightAt(h, i + 1), Back(i + 2) - Back(i + 1), i + 2);
    } else {
      EntriesEnd(h, i);
      assert [0] + [] == [0];
    }
  }

  lemma EntriesEnd(h: nat, i: nat)
    requires HeightAt(h, i) == 0
    ensures EntriesFrom([0], h, i)
  {
  }

  /** A locator starts with the block itself, ends at the genesis block, and lists the ancestors 1, 2, ... 10,
      11, 13, 17, ... blocks back: at most 12 + log2 of the height in all. */
  lemma LocatorIs(h: nat)
    ensures var s := Locator(h, 1, 1);
            && s[|s| - 1] == 0
            && (forall i :: 0 <= i < |s| ==> s[i] == HeightAt(h, i))
            && (forall i, j :: 0 <= i < j < |s| ==> s[i] > s[j])
            && (|s| <= 12 || Pow(2, |s| - 12) < h)
  {
    hide Back, EntriesFrom, HeightAt, Locator;
    LocatorStarts(h);
    LocatorFrom(h, 0);
    var s := Locator(h, 1, 1);
    EntriesAre(s, h);
    forall i, j | 0 <= i < j < |s|
      ensures s[i] > s[j]
    {
      HeightsFall(h, i, j);
    }
    if |s| > 12 {
      HeightFar(h, |s| - 2);
    }
  }

  lemma LocatorStarts(h: nat)
    ensures HeightAt(h, 0) == h && Back(0) == 0 && Back(1) == 1
  {
  }

  lemma EntriesAre(s: seq<nat>, h: nat)
    requires EntriesFrom(s, h, 0)
    ensures s != [] && s[|s| - 1] == 0
    ensures forall j :: 0 <= j < |s| ==> s[j] == HeightAt(h, j) && (j < |s| - 1 ==> s[j] > 0)
  {
    hide HeightAt;
    forall j | 0 <= j < |s|
      ensures s[j] == HeightAt(h, j) && (j < |s| - 1 ==> s[j] > 0)
    {
      assert s[j] == HeightAt(h, 0 + j);
    }
  }

  lemma HeightsFall(h: nat, i: nat, j: nat)
    requires i < j && HeightAt(h, i) > 0
    ensures HeightAt(h, i) > HeightAt(h, j)
  {
    hide Back;
    BackMono(i, j);
  }

  lemma HeightFar(h: nat, i: nat)
    requires i >= 10 && HeightAt(h, i) > 0
    ensures Pow(2, i - 10) < h
  {
    hide Pow;
  }

  lemma {:induction false} BackMono(i: nat, j: nat)
    requires i < j
    ensures Back(i) < Back(j)
  {
    if j > i + 1 {
      BackMono(i, j - 1);
    }
  }

  function Entries(s: seq<CBlockIndex>): (r: seq<Option<CBlockIndex>>)
    ensures |r| == |s| && forall i :: 0 <= i < |s| ==> r[i] == Some(s[i])
  {
    seq(|s|, i requires 0 <= i < |s| => Some(s[i]))
  }

  /** SetTip has come to `walk`: above it the ancestors of the tip are in place, from it down the old entries. */
  ghost predicate Overwritten(before: seq<Option<CBlockIndex>>, chain: seq<Option<CBlockIndex>>, tip: CBlockIndex,
                              walk: Option<CBlockIndex>) {
    var h := if walk.Some? then Height(walk.value) else -1;
    && |chain| == Height(tip) + 1 && (walk.Some? ==> IsAncestor(walk.value, tip))
    && (forall i :: 0 <= i <= h ==> chain[i] == if i < |before| then before[i] else None)
    && (forall i :: h < i < |chain| ==> chain[i] == Some(Path(tip)[i]))
  }

  lemma OverwriteMore(before: seq<Option<CBlockIndex>>, chain: seq<Option<CBlockIndex>>, tip: CBlockIndex,
                      b: CBlockIndex)
    requires Overwritten(before, chain, tip, Some(b))
    ensures Overwritten(before, chain[Height(b) := Some(b)], tip, if b.Block? then Some(b.pprev) else None)
  {
    hide Path;
    if b.Block? {
      ParentOnPath(tip, Height(b));
      PathOfPath(tip, Height(b) - 1);
    }
  }

  lemma OverwriteDone(before: seq<Option<CBlockIndex>>, chain: seq<Option<CBlockIndex>>, tip: CBlockIndex,
                      walk: Option<CBlockIndex>)
    requires Overwritten(before, chain, tip, walk) && (walk.Some? ==> chain[Height(walk.value)] == walk)
    requires before == [] || (before[|before| - 1].Some? && before == Entries(Path(before[|before| - 1].value)))
    ensures chain == Entries(Path(tip))
  {
    hide Path;
    if walk.Some? {
      OldPrefix(before, tip, Height(walk.value));
    }
  }

  /** Where a valid chain holds an ancestor of a block, it holds all earlier ones. */
  lemma OldPrefix(chain: seq<Option<CBlockIndex>>, tip: CBlockIndex, h: nat)
    requires chain == [] || (chain[|chain| - 1].Some? && chain == Entries(Path(chain[|chain| - 1].value)))
    requires h < |chain| && h <= Height(tip) && chain[h] == Some(Path(tip)[h])
    ensures forall i :: 0 <= i <= h ==> chain[i] == Some(Path(tip)[i])
  {
    var last := chain[|chain| - 1].value;
    forall i | 0 <= i <= h
      ensures chain[i] == Some(Path(tip)[i])
    {
      CommonBelow(last, tip, h, i);
    }
  }
}
