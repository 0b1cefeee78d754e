/** Counting locks on memory pages (LockedPageManagerBase, src/allocators.h): a page stays locked in the
    operating system as long as some locked range touches it.
*/
module LockedPages {
  import opened Radix

  /** The size of the address space, for a 64-bit size_t. */
  const SPACE: nat := 0x1_0000_0000_0000_0000

  /** A range of memory. */
  datatype Range = Range(base: nat, size: nat)

  /** "address & page_mask", for a page size that is a power of two. */
  function PageOf(address: nat, pageSize: nat): nat
    requires pageSize > 0
  {
    address / pageSize * pageSize
  }

  lemma PageNumber(k: nat, pageSize: nat)
    requires pageSize > 0
    ensures k * pageSize / pageSize == k && k * pageSize % pageSize == 0
  {
    DivisionIs(k * pageSize, pageSize, k, 0);
  }

  /** The page with that number has a byte of the range on it. */
  predicate Touches(r: Range, pageSize: nat, k: nat)
    requires pageSize > 0
  {
    r.size > 0 && r.base / pageSize <= k <= (r.base + r.size - 1) / pageSize
  }

  /** The page with that number holds a byte. */
  predicate OnPage(b: nat, pageSize: nat, k: nat) {
    k * pageSize <= b < (k + 1) * pageSize
  }

  /** That is, some byte of it lies on the page. */
  lemma TouchesBytes(r: Range, pageSize: nat, k: nat)
    requires pageSize > 0
    ensures Touches(r, pageSize, k)
            <==> exists b: nat :: r.base <= b < r.base + r.size && OnPage(b, pageSize, k)
  {
    if Touches(r, pageSize, k) {
      var b := if r.base <= k * pageSize then k * pageSize else r.base;
      PageBounds(r.base, k, pageSize);
      PageBounds(r.base + r.size - 1, k, pageSize);
      PageBounds(b, k, pageSize);
      assert r.base <= b < r.base + r.size && OnPage(b, pageSize, k);
    }
    if b: nat :| r.base <= b < r.base + r.size && OnPage(b, pageSize, k) {
      PageBounds(r.base, k, pageSize);
      PageBounds(r.base + r.size - 1, k, pageSize);
    }
  }

  lemma PageBounds(b: nat, k: nat, pageSize: nat)
    requires pageSize > 0
    ensures b / pageSize <= k <==> b < (k + 1) * pageSize
    ensures k <= b / pageSize <==> k * pageSize <= b
  {
    var q := b / pageSize;
    Floor(b, pageSize);
    if q <= k {
      TimesMono(q + 1, pageSize, k + 1, pageSize);
    } else {
      TimesMono(k + 1, pageSize, q, pageSize);
    }
    if k <= q {
      TimesMono(k, pageSize, q, pageSize);
    } else {
      TimesMono(q + 1, pageSize, k, pageSize);
    }
  }

  /** The number of ranges that touch a page. */
  function Count(live: seq<Range>, pageSize: nat, k: nat): nat
    requires pageSize > 0
  {
    if live == [] then 0
    else (if Touches(live[0], pageSize, k) then 1 else 0) + Count(live[1..], pageSize, k)
  }

  lemma {:induction false} CountPlus(live: seq<Range>, r: Range, pageSize: nat, k: nat)
    requires pageSize > 0
    ensures Count(live + [r], pageSize, k) == Count(live, pageSize, k) + if Touches(r, pageSize, k) then 1 else 0
  {
    if live == [] {
      assert live + [r] == [r];
    } else {
      assert (live + [r])[1..] == live[1..] + [r];
      CountPlus(live[1..], r, pageSize, k);
    }
  }

  function Without(live: seq<Range>, i: nat): seq<Range>
    requires i < |live|
  {
    live[..i] + live[i + 1..]
  }

  lemma {:induction false} CountWithout(live: seq<Range>, i: nat, pageSize: nat, k: nat)
    requires pageSize > 0 && i < |live|
    ensures Count(live, pageSize, k)
            == Count(Without(live, i), pageSize, k) + if Touches(live[i], pageSize, k) then 1 else 0
  {
    if i == 0 {
      assert Without(live, 0) == live[1..];
    } else {
      assert Without(live, i)[1..] == Without(live[1..], i - 1);
      CountWithout(live[1..], i - 1, pageSize, k);
    }
  }

  /** A range ends at least one page below the top of the address space. */
  predicate BelowTop(r: Range, pageSize: nat) {
    r.base + r.size + pageSize <= SPACE
  }

  // ---------------------------------------------------------------------------------------
  // The histogram

  /** The count of a page, for some ranges and the pages from lo up to hi of one more. */
  function CountTo(live: seq<Range>, r: Range, pageSize: nat, lo: nat, hi: nat, k: nat): nat
    requires pageSize > 0
  {
    Count(live, pageSize, k) + if Touches(r, pageSize, k) && lo <= k < hi then 1 else 0
  }

  /** The histogram holds these counts, at the addresses of the pages that have one. */
  ghost predicate Holds(histogram: map<nat, int>, live: seq<Range>, r: Range, pageSize: nat, lo: nat, hi: nat)
    requires pageSize > 0
  {
    forall page: nat ::
      && (page in histogram <==> page % pageSize == 0 && CountTo(live, r, pageSize, lo, hi, page / pageSize) > 0)
      && (page in histogram ==> histogram[page] == CountTo(live, r, pageSize, lo, hi, page / pageSize))
  }

  lemma PageIs(page: nat, k: nat, pageSize: nat)
    requires pageSize > 0
    ensures page == k * pageSize <==> page % pageSize == 0 && page / pageSize == k
  {
    PageNumber(k, pageSize);
    assert page == pageSize * (page / pageSize) + page % pageSize;
  }

  function Locked(histogram: map<nat, int>, page: nat): map<nat, int> {
    histogram[page := if page in histogram then histogram[page] + 1 else 1]
  }

  function Unlocked(histogram: map<nat, int>, page: nat): map<nat, int>
    requires page in histogram
  {
    if histogram[page] == 1 then histogram - {page} else histogram[page := histogram[page] - 1]
  }

  lemma LockOne(histogram: map<nat, int>, live: seq<Range>, r: Range, pageSize: nat, lo: nat, k: nat)
    requires pageSize > 0 && Holds(histogram, live, r, pageSize, lo, k) && lo <= k && Touches(r, pageSize, k)
    ensures Holds(Locked(histogram, k * pageSize), live, r, pageSize, lo, k + 1)
  {
    hide Touches, Count;
    var page := k * pageSize;
    PageIs(page, k, pageSize);
    forall p: nat
      ensures p in Locked(histogram, page)
              <==> p % pageSize == 0 && CountTo(live, r, pageSize, lo, k + 1, p / pageSize) > 0
      ensures p in Locked(histogram, page)
              ==> Locked(histogram, page)[p] == CountTo(live, r, pageSize, lo, k + 1, p / pageSize)
    {
      PageIs(p, k, pageSize);
    }
  }

  lemma UnlockOne(histogram: map<nat, int>, live: seq<Range>, r: Range, pageSize: nat, k: nat, hi: nat)
    requires pageSize > 0 && Holds(histogram, live, r, pageSize, k, hi) && k < hi && Touches(r, pageSize, k)
    ensures k * pageSize in histogram
    ensures Holds(Unlocked(histogram, k * pageSize), live, r, pageSize, k + 1, hi)
  {
    hide Touches, Count;
    var page := k * pageSize;
    PageIs(page, k, pageSize);
    forall p: nat
      ensures p in Unlocked(histogram, page)
              <==> p % pageSize == 0 && CountTo(live, r, pageSize, k + 1, hi, p / pageSize) > 0
      ensures p in Unlocked(histogram, page)
              ==> Unlocked(histogram, page)[p] == CountTo(live, r, pageSize, k + 1, hi, p / pageSize)
    {
      PageIs(p, k, pageSize);
    }
  }

  lemma HoldsSame(histogram: map<nat, int>, a: seq<Range>, r: Range, lo: nat, hi: nat,
                  b: seq<Range>, q: Range, from: nat, to: nat, pageSize: nat)
    requires pageSize > 0 && Holds(histogram, a, r, pageSize, lo, hi)
    requires forall k: nat :: CountTo(a, r, pageSize, lo, hi, k) == CountTo(b, q, pageSize, from, to, k)
    ensures Holds(histogram, b, q, pageSize, from, to)
  {
    hide CountTo;
  }

  /** The first and the last page of a range. */
  function First(r: Range, pageSize: nat): nat
    requires pageSize > 0
  {
    r.base / pageSize
  }

  function Last(r: Range, pageSize: nat): (k: nat)
    requires pageSize > 0 && r.size > 0
  {
    (r.base + r.size - 1) / pageSize
  }

  const NO_RANGE: Range := Range(0, 0)

  class LockedPageManager {
    const pageSize: nat
    var histogram: map<nat, int>

    /** The pages the operating system keeps locked. */
    var locked: set<nat>

    /** The ranges locked and not unlocked since. */
    ghost var live: seq<Range>

    /** Each page's count is the number of live ranges that touch it, and the pages that are locked are
        those with a count. */
    ghost predicate Valid()
      reads this
    {
      && pageSize > 0 && locked == histogram.Keys
      && Holds(histogram, live, NO_RANGE, pageSize, 0, 0)
    }

    constructor (pageSize: nat)
      requires pageSize > 0
      ensures Valid() && live == [] && this.pageSize == pageSize
    {
      this.pageSize, histogram, locked, live := pageSize, map[], {}, [];
    }

    method LockPage(page: nat)
      requires locked == histogram.Keys
      modifies this`histogram, this`locked
      ensures histogram == Locked(old(histogram), page) && locked == histogram.Keys
    {
      if page !in histogram {
        locked := locked + {page};
        histogram := histogram[page := 1];
      } else {
        histogram := histogram[page := histogram[page] + 1];
      }
    }

    method UnlockPage(page: nat)
      requires locked == histogram.Keys && page in histogram
      modifies this`histogram, this`locked
      ensures histogram == Unlocked(old(histogram), page) && locked == histogram.Keys
    {
      ghost var before := histogram;
      histogram := histogram[page := histogram[page] - 1];
      if histogram[page] == 0 {
        locked := locked - {page};
        histogram := histogram - {page};
        assert histogram == before - {page};
      }
    }

    /** LockRange: the range is live from now on. */
    method LockRange(r: Range)
      requires Valid() && BelowTop(r, pageSize)
      modifies this
      ensures Valid() && live == old(live) + [r]
    {
      hide Holds, Locked, Count, PageOf;
      LockEnds(histogram, live, r, pageSize);
      if r.size > 0 {
        ghost var k := First(r, pageSize);
        var page, end := PageOf(r.base, pageSize), PageOf(r.base + r.size - 1, pageSize);
        Pages(r, pageSize);
        while page <= end
          invariant page == k * pageSize && First(r, pageSize) <= k <= Last(r, pageSize) + 1
          invariant page <= end <==> k <= Last(r, pageSize)
          invariant locked == histogram.Keys && live == old(live)
          invariant Holds(histogram, live, r, pageSize, First(r, pageSize), k)
          decreases Last(r, pageSize) + 1 - k
        {
          LockOne(histogram, live, r, pageSize, First(r, pageSize), k);
          LockPage(page);
          NextPage(r, pageSize, k);
          page := (page + pageSize) % SPACE;
          k := k + 1;
        }
        AllLocked(histogram, live, r, pageSize);
      }
      live := live + [r];
    }

    /** UnlockRange, of a range that is live: the one at that place is so no more. The assertion that each of
        its pages has a count holds. */
    method UnlockRange(r: Range, ghost i: nat)
      requires Valid() && BelowTop(r, pageSize) && i < |live| && live[i] == r
      modifies this
      ensures Valid() && live == Without(old(live), i)
    {
      hide Holds, Unlocked, Count, PageOf;
      ghost var rest := Without(live, i);
      UnlockEnds(histogram, live, i, pageSize);
      if r.size > 0 {
        ghost var k := First(r, pageSize);
        var page, end := PageOf(r.base, pageSize), PageOf(r.base + r.size - 1, pageSize);
        Pages(r, pageSize);
        while page <= end
          invariant page == k * pageSize && First(r, pageSize) <= k <= Last(r, pageSize) + 1
          invariant page <= end <==> k <= Last(r, pageSize)
          invariant locked == histogram.Keys
          invariant Holds(histogram, rest, r, pageSize, k, Last(r, pageSize) + 1)
          decreases Last(r, pageSize) + 1 - k
        {
          UnlockOne(histogram, rest, r, pageSize, k, Last(r, pageSize) + 1);
          assert page in histogram;
          UnlockPage(page);
          NextPage(r, pageSize, k);
          page := (page + pageSize) % SPACE;
          k := k + 1;
        }
        AllUnlocked(histogram, rest, r, pageSize);
      }
      live := rest;
    }
  }

  /** A page is locked just while a live range touches it, and counted once for each that does. */
  lemma PageLocked(m: LockedPageManager, k: nat)
    requires m.Valid()
    ensures k * m.pageSize in m.locked <==> exists i :: 0 <= i < |m.live| && Touches(m.live[i], m.pageSize, k)
    ensures k * m.pageSize in m.locked ==> m.histogram[k * m.pageSize] == Count(m.live, m.pageSize, k)
  {
    PageIs(k * m.pageSize, k, m.pageSize);
    CountPositive(m.live, m.pageSize, k);
  }

  lemma {:induction false} CountPositive(live: seq<Range>, pageSize: nat, k: nat)
    requires pageSize > 0
    ensures Count(live, pageSize, k) > 0 <==> exists i :: 0 <= i < |live| && Touches(live[i], pageSize, k)
  {
    if live != [] {
      CountPositive(live[1..], pageSize, k);
      if Count(live[1..], pageSize, k) > 0 {
        var i :| 0 <= i < |live[1..]| && Touches(live[1..][i], pageSize, k);
        assert Touches(live[i + 1], pageSize, k);
      }
    }
  }

  lemma Floor(n: nat, d: nat)
    requires d > 0
    ensures n / d * d <= n < n / d * d + d
  {
    assert n == n / d * d + n % d;
  }

  /** The page loop starts at the first page, and its bound is the last. */
  lemma Pages(r: Range, pageSize: nat)
    requires pageSize > 0 && r.size > 0
    ensures PageOf(r.base, pageSize) == First(r, pageSize) * pageSize
    ensures PageOf(r.base + r.size - 1, pageSize) == Last(r, pageSize) * pageSize
    ensures First(r, pageSize) <= Last(r, pageSize)
    ensures First(r, pageSize) * pageSize <= Last(r, pageSize) * pageSize
  {
    hide First, Last;
    Ordered(r, pageSize);
    AtPages(r, pageSize);
    TimesMono(First(r, pageSize), pageSize, Last(r, pageSize), pageSize);
  }

  lemma AtPages(r: Range, pageSize: nat)
    requires pageSize > 0 && r.size > 0
    ensures PageOf(r.base, pageSize) == First(r, pageSize) * pageSize
    ensures PageOf(r.base + r.size - 1, pageSize) == Last(r, pageSize) * pageSize
  {
  }

  lemma Ordered(r: Range, pageSize: nat)
    requires pageSize > 0 && r.size > 0
    ensures First(r, pageSize) <= Last(r, pageSize)
  {
    var p, q := First(r, pageSize), Last(r, pageSize);
    Floor(r.base, pageSize);
    Floor(r.base + r.size - 1, pageSize);
    hide First, Last;
    TimesMono(if q < p then q + 1 else 0, pageSize, if q < p then p else 0, pageSize);
    Distribute(q, 1, pageSize);
  }

  /** A page loop over a range does not wrap around the address space. */
  lemma NextPage(r: Range, pageSize: nat, k: nat)
    requires pageSize > 0 && r.size > 0 && BelowTop(r, pageSize) && k <= Last(r, pageSize)
    ensures (k * pageSize + pageSize) % SPACE == (k + 1) * pageSize
    ensures (k + 1) * pageSize <= Last(r, pageSize) * pageSize <==> k + 1 <= Last(r, pageSize)
  {
    PageOrder(k + 1, Last(r, pageSize), pageSize);
    PageOrder(k, Last(r, pageSize), pageSize);
    Floor(r.base + r.size - 1, pageSize);
    hide First, Last;
  }

  /** What a range that is not live yet, or has no byte, adds to the counts. */
  lemma LockEnds(histogram: map<nat, int>, live: seq<Range>, r: Range, pageSize: nat)
    requires pageSize > 0 && Holds(histogram, live, NO_RANGE, pageSize, 0, 0)
    ensures Holds(histogram, live, r, pageSize, First(r, pageSize), First(r, pageSize))
    ensures r.size == 0 ==> Holds(histogram, live + [r], NO_RANGE, pageSize, 0, 0)
  {
    hide Holds, Count;
    HoldsSame(histogram, live, NO_RANGE, 0, 0, live, r, First(r, pageSize), First(r, pageSize), pageSize);
    if r.size == 0 {
      forall k: nat
        ensures Count(live + [r], pageSize, k) == Count(live, pageSize, k)
      {
        CountPlus(live, r, pageSize, k);
      }
      HoldsSame(histogram, live, NO_RANGE, 0, 0, live + [r], NO_RANGE, 0, 0, pageSize);
    }
  }

  lemma AllLocked(histogram: map<nat, int>, live: seq<Range>, r: Range, pageSize: nat)
    requires pageSize > 0 && r.size > 0
    requires Holds(histogram, live, r, pageSize, First(r, pageSize), Last(r, pageSize) + 1)
    ensures Holds(histogram, live + [r], NO_RANGE, pageSize, 0, 0)
  {
    hide Holds, Count;
    forall k: nat
      ensures Count(live + [r], pageSize, k) == Count(live, pageSize, k) + if Touches(r, pageSize, k) then 1 else 0
    {
      CountPlus(live, r, pageSize, k);
    }
    HoldsSame(histogram, live, r, First(r, pageSize), Last(r, pageSize) + 1, live + [r], NO_RANGE, 0, 0, pageSize);
  }

  /** What a live range adds to the counts of the others. */
  lemma UnlockEnds(histogram: map<nat, int>, live: seq<Range>, i: nat, pageSize: nat)
    requires pageSize > 0 && i < |live| && Holds(histogram, live, NO_RANGE, pageSize, 0, 0)
    ensures var r := live[i];
            if r.size > 0
            then Holds(histogram, Without(live, i), r, pageSize, First(r, pageSize), Last(r, pageSize) + 1)
            else Holds(histogram, Without(live, i), NO_RANGE, pageSize, 0, 0)
  {
    hide Holds, Count, Without;
    var r := live[i];
    forall k: nat
      ensures Count(live, pageSize, k)
              == Count(Without(live, i), pageSize, k) + if Touches(r, pageSize, k) then 1 else 0
    {
      CountWithout(live, i, pageSize, k);
    }
    if r.size > 0 {
      HoldsSame(histogram, live, NO_RANGE, 0, 0, Without(live, i), r, First(r, pageSize), Last(r, pageSize) + 1,
                pageSize);
    } else {
      HoldsSame(histogram, live, NO_RANGE, 0, 0, Without(live, i), NO_RANGE, 0, 0, pageSize);
    }
  }

  lemma AllUnlocked(histogram: map<nat, int>, live: seq<Range>, r: Range, pageSize: nat)
    requires pageSize > 0 && r.size > 0
    requires Holds(histogram, live, r, pageSize, Last(r, pageSize) + 1, Last(r, pageSize) + 1)
    ensures Holds(histogram, live, NO_RANGE, pageSize, 0, 0)
  {
    hide Holds, Count;
    HoldsSame(histogram, live, r, Last(r, pageSize) + 1, Last(r, pageSize) + 1, live, NO_RANGE, 0, 0, pageSize);
  }

  /** The loop of LockRange and UnlockRange over pages comes past its end just when the last page of the range
      is not the last of the address space; otherwise the address wraps around and the loop never ends. */
  lemma LoopEnds(start: nat, end: nat, pageSize: nat, pages: nat)
    requires pageSize > 0 && pages > 0 && SPACE == pages * pageSize
    requires start <= end < pages
    ensures (exists k: nat :: Visited(start, k, pageSize) > end * pageSize) <==> end + 1 < pages
  {
    if end + 1 < pages {
      var k := end + 1 - start;
      PassesEnd(start, end, pageSize, pages, k);
      assert Visited(start, k, pageSize) > end * pageSize;
    } else {
      forall k: nat
        ensures Visited(start, k, pageSize) <= end * pageSize
      {
        WrapsAround(start, k, pageSize, pages);
      }
    }
  }

  /** For a range in the address space, that is just when it ends at least one page below the top. */
  lemma RangeEnds(r: Range, pageSize: nat, pages: nat)
    requires pageSize > 0 && pages > 0 && SPACE == pages * pageSize
    requires r.size > 0 && r.base + r.size <= SPACE
    ensures (exists k: nat :: Visited(First(r, pageSize), k, pageSize) > Last(r, pageSize) * pageSize)
            <==> BelowTop(r, pageSize)
  {
    hide Visited;
    var last := r.base + r.size - 1;
    var end := Last(r, pageSize);
    Ordered(r, pageSize);
    Floor(last, pageSize);
    PageOrder(end, pages, pageSize);
    PageOrder(pages, end, pageSize);
    PageOrder(pages, end + 1, pageSize);
    PageOrder(end + 2, pages, pageSize);
    PageOrder(end + 1, pages, pageSize);
    LoopEnds(First(r, pageSize), end, pageSize, pages);
  }

  /** One byte on the last page: with pages of 4096 bytes, the loop never comes past it. */
  lemma LastPageNeverEnds(k: nat)
    ensures var r := Range(SPACE - 1, 1);
            Visited(First(r, 4096), k, 4096) <= Last(r, 4096) * 4096
  {
    LoopEnds(SPACE / 4096 - 1, SPACE / 4096 - 1, 4096, SPACE / 4096);
  }

  lemma PassesEnd(start: nat, end: nat, pageSize: nat, pages: nat, k: nat)
    requires pageSize > 0 && pages > 0 && SPACE == pages * pageSize
    requires start + k == end + 1 < pages
    ensures Visited(start, k, pageSize) == (end + 1) * pageSize > end * pageSize
  {
    TimesMono(end + 2, pageSize, pages, pageSize);
    PageOrder(end, end + 1, pageSize);
    PageOrder(end + 1, end + 2, pageSize);
  }

  lemma WrapsAround(start: nat, k: nat, pageSize: nat, pages: nat)
    requires pageSize > 0 && pages > 0 && SPACE == pages * pageSize
    ensures Visited(start, k, pageSize) <= (pages - 1) * pageSize
  {
    var n := start + k;
    var q, j := n / pages, n % pages;
    assert n == q * pages + j;
    Distribute(q * pages, j, pageSize);
    Associate(q, pages, pageSize);
    TimesMono(j, pageSize, pages - 1, pageSize);
    PageOrder(pages - 1, pages, pageSize);
    DivisionIs(n * pageSize, SPACE, q, j * pageSize);
  }

  /** The address of the page that the loop comes to in its k-th round. */
  function Visited(start: nat, k: nat, pageSize: nat): nat {
    (start + k) * pageSize % SPACE
  }

  /** Pages are in the order of their numbers. */
  lemma PageOrder(k: nat, j: nat, pageSize: nat)
    requires pageSize > 0
    ensures k * pageSize <= j * pageSize <==> k <= j
    ensures (k + 1) * pageSize == k * pageSize + pageSize
  {
    if k <= j {
      TimesMono(k, pageSize, j, pageSize);
    } else {
      TimesMono(j + 1, pageSize, k, pageSize);
      Distribute(j, 1, pageSize);
    }
    Distribute(k, 1, pageSize);
  }
}
