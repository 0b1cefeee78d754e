/** GetAddr_ of the address manager, and what holds over every run of its public operations. */
module AddrManRuns {
  import opened Collections
  import opened AddrManState
  import opened AddrManInvariant
  import opened AddrManSteps

  const GETADDR_MAX_PCT: nat := 23
  const GETADDR_MAX: nat := 2500

  // ---------------------------------------------------------------------------------------
  // GetAddr_

  /** The number of addresses GetAddr_ gives at most. */
  function Limit(size: nat): (n: nat)
    ensures n <= GETADDR_MAX && 100 * n <= GETADDR_MAX_PCT * size
    ensures n == GETADDR_MAX || 100 * (n + 1) > GETADDR_MAX_PCT * size
  {
    if GETADDR_MAX_PCT * size / 100 > GETADDR_MAX then GETADDR_MAX else GETADDR_MAX_PCT * size / 100
  }

  /** The addresses of the entries in `ids` that are not terrible; the clock is read for each. */
  function Decent(infos: map<int, Info>, ids: seq<int>, clock: int -> int): seq<Address>
    requires forall i :: i in ids ==> i in infos
  {
    if ids == [] then []
    else
      var id := ids[|ids| - 1];
      var before := Decent(infos, ids[..|ids| - 1], clock);
      if IsTerrible(infos[id], clock(|ids| - 1)) then before else before + [infos[id].address]
  }

  /** A random position from n on. */
  function RandomPlace(draw: nat, n: nat, size: nat): (j: nat)
    requires n < size
    ensures n <= j < size
  {
    draw % (size - n) + n
  }

  /** GetAddr_'s loop from position n on: each step moves a random entry of the rest to n. */
  ghost function Gather(h: Hashing, s: State, n: nat, limit: nat, random: nat -> nat, clock: int -> int,
                        got: seq<Address>)
      : (r: (State, seq<Address>))
    requires Core(h, s)
    decreases |s.vRandom| - n
  {
    hide Core, RandomPlace;
    if n >= |s.vRandom| || |got| >= limit then (s, got)
    else
      var j := RandomPlace(random(n), n, |s.vRandom|);
      SwapOk(h, s, n, j);
      var t := SwapRandom(s, n, j);
      PlacesOk(h, t);
      var info := t.mapInfo[t.vRandom[n]];
      Gather(h, t, n + 1, limit, random, clock, if IsTerrible(info, clock(n)) then got else got + [info.address])
  }

  ghost function GetAddr(h: Hashing, s: State, random: nat -> nat, clock: int -> int): (r: (State, seq<Address>))
    requires Consistent(h, s)
  {
    Gather(h, s, 0, Limit(|s.vRandom|), random, clock, [])
  }

  /** Entries keep their place among the first n when later places are swapped. */
  lemma {:induction false} DecentSame(s: map<int, Info>, t: map<int, Info>, ids: seq<int>, clock: int -> int)
    requires s.Keys == t.Keys && forall i :: i in ids ==> i in s
    requires forall i :: i in s ==> t[i] == s[i].(nRandomPos := t[i].nRandomPos)
    ensures Decent(s, ids, clock) == Decent(t, ids, clock)
  {
    if ids != [] {
      DecentSame(s, t, ids[..|ids| - 1], clock);
    }
  }

  /** One step of the loop. */
  lemma GatherStep(h: Hashing, s: State, n: nat, j: nat, clock: int -> int) returns (t: State)
    requires Consistent(h, s) && n <= j < |s.vRandom|
    ensures CanSwap(s, n, j) && t == SwapRandom(s, n, j)
    ensures Consistent(h, t) && Shuffled(s, t) && t.vRandom[n] in t.mapInfo
    ensures (forall i :: i in s.vRandom[..n] ==> i in s.mapInfo)
    ensures (forall i :: i in t.vRandom[..n + 1] ==> i in t.mapInfo)
    ensures Decent(t.mapInfo, t.vRandom[..n + 1], clock)
            == Decent(s.mapInfo, s.vRandom[..n], clock)
               + if IsTerrible(t.mapInfo[t.vRandom[n]], clock(n)) then [] else [t.mapInfo[t.vRandom[n]].address]
  {
    hide Core, Referenced, Counted, IsTerrible, SwapRandom, CanSwap, Decent;
    PlacesOk(h, s);
    SwapOk(h, s, n, j);
    t := SwapRandom(s, n, j);
    PlacesOk(h, t);
    assert t.vRandom[..n] == s.vRandom[..n];
    DecentSame(s.mapInfo, t.mapInfo, s.vRandom[..n], clock);
    assert t.vRandom[..n + 1] == t.vRandom[..n] + [t.vRandom[n]];
    DecentPlus(t.mapInfo, t.vRandom[..n], t.vRandom[n], clock);
  }

  lemma DecentPlus(infos: map<int, Info>, ids: seq<int>, id: int, clock: int -> int)
    requires (forall i :: i in ids ==> i in infos) && id in infos
    ensures Decent(infos, ids + [id], clock)
            == Decent(infos, ids, clock) + if IsTerrible(infos[id], clock(|ids|)) then [] else [infos[id].address]
  {
    hide IsTerrible;
    assert (ids + [id])[..|ids|] == ids;
  }

  /** One round of the loop of GetAddr_. */
  lemma GatherUnfolds(h: Hashing, s: State, n: nat, limit: nat, random: nat -> nat, clock: int -> int,
                      got: seq<Address>)
    requires Core(h, s)
    ensures n >= |s.vRandom| || |got| >= limit ==> Gather(h, s, n, limit, random, clock, got) == (s, got)
    ensures n < |s.vRandom| && |got| < limit ==>
              var j := RandomPlace(random(n), n, |s.vRandom|);
              && CanSwap(s, n, j) && Core(h, SwapRandom(s, n, j))
              && SwapRandom(s, n, j).vRandom[n..] != [] && SwapRandom(s, n, j).vRandom[n] in SwapRandom(s, n, j).mapInfo
              && var info := SwapRandom(s, n, j).mapInfo[SwapRandom(s, n, j).vRandom[n]];
                 Gather(h, s, n, limit, random, clock, got)
                 == Gather(h, SwapRandom(s, n, j), n + 1, limit, random, clock,
                           if IsTerrible(info, clock(n)) then got else got + [info.address])
  {
    hide Core, IsTerrible, Referenced, Counted, SwapRandom, CanSwap, Shuffled, RandomPlace;
    if n < |s.vRandom| && |got| < limit {
      var j := RandomPlace(random(n), n, |s.vRandom|);
      SwapOk(h, s, n, j);
      PlacesOk(h, SwapRandom(s, n, j));
    }
  }

  /** The state GetAddr_ leaves, and the entries it has gone through: the first k of vRandom. */
  lemma {:induction false} GatherOk(h: Hashing, s: State, n: nat, limit: nat, random: nat -> nat, clock: int -> int,
                                    got: seq<Address>) returns (k: nat)
    requires Consistent(h, s) && n <= |s.vRandom| && |got| <= limit
    requires forall i :: i in s.vRandom[..n] ==> i in s.mapInfo
    requires got == Decent(s.mapInfo, s.vRandom[..n], clock)
    ensures var (t, all) := Gather(h, s, n, limit, random, clock, got);
            && Consistent(h, t) && Shuffled(s, t)
            && k <= |t.vRandom| && (forall i :: i in t.vRandom[..k] ==> i in t.mapInfo)
            && all == Decent(t.mapInfo, t.vRandom[..k], clock)
            && |all| <= limit && (|all| == limit || k == |t.vRandom|)
    decreases |s.vRandom| - n
  {
    hide Core, Referenced, Counted, IsTerrible, Decent, SwapRandom, CanSwap, Gather, RandomPlace;
    GatherUnfolds(h, s, n, limit, random, clock, got);
    if n >= |s.vRandom| || |got| >= limit {
      k := n;
    } else {
      var j := RandomPlace(random(n), n, |s.vRandom|);
      var t := GatherStep(h, s, n, j, clock);
      var info := t.mapInfo[t.vRandom[n]];
      var more := if IsTerrible(info, clock(n)) then got else got + [info.address];
      k := GatherOk(h, t, n + 1, limit, random, clock, more);
    }
  }

  /** Good enough to be given: tried within the minute; or seen within thirty days, and not in the future, with a
      success or less than three attempts, and a success within the week or less than ten failures. */
  predicate IsDecent(info: Info, now: int) {
    || (info.nLastTry != 0 && now - info.nLastTry <= 60)
    || (&& info.address.nTime != 0 && now - 30 * 24 * 60 * 60 <= info.address.nTime <= now + 10 * 60
        && (info.nLastSuccess != 0 || info.nAttempts <= 2)
        && (info.nLastSuccess >= now - 7 * 24 * 60 * 60 || info.nAttempts <= 9))
  }

  lemma TerribleOrDecent(info: Info, now: int)
    ensures IsTerrible(info, now) <==> !IsDecent(info, now)
  {
  }

  /** The entries that are decent when the clock is read for their place. */
  ghost function DecentIds(s: State, clock: int -> int): set<int> {
    set id | id in s.mapInfo && IsDecent(s.mapInfo[id], clock(s.mapInfo[id].nRandomPos))
  }

  /** The decent entries among the first k of vRandom. */
  ghost function DecentBefore(s: State, k: nat, clock: int -> int): set<int> {
    set id | id in s.mapInfo && IsDecent(s.mapInfo[id], clock(s.mapInfo[id].nRandomPos))
             && s.mapInfo[id].nRandomPos < k
  }

  /** Going through some of the entries gives as many addresses as there are good ones among them. */
  lemma {:induction false} DecentSize(h: Hashing, s: State, k: nat, clock: int -> int)
    requires Core(h, s) && k <= |s.vRandom|
    ensures |Decent(s.mapInfo, s.vRandom[..k], clock)| == |DecentBefore(s, k, clock)|
  {
    hide Core, IsTerrible, Decent, DecentBefore;
    if k > 0 {
      DecentSize(h, s, k - 1, clock);
      DecentMore(h, s, k - 1, clock);
      DecentBeforeStep(h, s, k - 1, clock);
    } else {
      DecentNone(s.mapInfo, s.vRandom[..0], clock);
      NoneBefore(h, s, clock);
    }
  }

  lemma DecentNone(infos: map<int, Info>, ids: seq<int>, clock: int -> int)
    requires ids == []
    ensures Decent(infos, ids, clock) == []
  {
  }

  /** One entry more. */
  lemma DecentMore(h: Hashing, s: State, k: nat, clock: int -> int)
    requires Core(h, s) && k < |s.vRandom|
    ensures forall i :: 0 <= i < |s.vRandom| ==> s.vRandom[i] in s.mapInfo
    ensures Decent(s.mapInfo, s.vRandom[..k + 1], clock)
            == Decent(s.mapInfo, s.vRandom[..k], clock)
               + if IsTerrible(s.mapInfo[s.vRandom[k]], clock(k)) then [] else [s.mapInfo[s.vRandom[k]].address]
  {
    hide Core, IsTerrible, Decent;
    PlacesOk(h, s);
    assert s.vRandom[..k + 1] == s.vRandom[..k] + [s.vRandom[k]];
    DecentPlus(s.mapInfo, s.vRandom[..k], s.vRandom[k], clock);
  }

  lemma NoneBefore(h: Hashing, s: State, clock: int -> int)
    requires Core(h, s)
    ensures DecentBefore(s, 0, clock) == {}
    ensures DecentBefore(s, |s.vRandom|, clock) == DecentIds(s, clock)
  {
    hide Core, IsTerrible, IsDecent;
    PlacesOk(h, s);
    assert forall id :: id in s.mapInfo ==> 0 <= s.mapInfo[id].nRandomPos < |s.vRandom|;
  }

  lemma DecentBeforeStep(h: Hashing, s: State, k: nat, clock: int -> int)
    requires Core(h, s) && k < |s.vRandom| && s.vRandom[k] in s.mapInfo
    ensures s.vRandom[k] !in DecentBefore(s, k, clock)
    ensures DecentBefore(s, k + 1, clock)
            == DecentBefore(s, k, clock) + if IsTerrible(s.mapInfo[s.vRandom[k]], clock(k)) then {} else {s.vRandom[k]}
  {
    hide Core, IsTerrible, IsDecent;
    PlacesOk(h, s);
    TerribleOrDecent(s.mapInfo[s.vRandom[k]], clock(k));
    forall id | id in s.mapInfo
      ensures s.mapInfo[id].nRandomPos == k <==> id == s.vRandom[k]
    {
    }
  }

  /** Each address given is that of one of the entries gone through, and not a terrible one. */
  lemma {:induction false} DecentFrom(h: Hashing, s: State, k: nat, clock: int -> int, i: nat) returns (id: int)
    requires Core(h, s) && k <= |s.vRandom| && i < |Decent(s.mapInfo, s.vRandom[..k], clock)|
    ensures id in DecentIds(s, clock) && s.mapInfo[id].nRandomPos < k
    ensures Decent(s.mapInfo, s.vRandom[..k], clock)[i] == s.mapInfo[id].address
  {
    hide Core, IsTerrible, IsDecent, Decent;
    PlacesOk(h, s);
    if k == 0 {
      DecentNone(s.mapInfo, s.vRandom[..0], clock);
      assert false;
    }
    DecentMore(h, s, k - 1, clock);
    if i < |Decent(s.mapInfo, s.vRandom[..k - 1], clock)| {
      id := DecentFrom(h, s, k - 1, clock, i);
    } else {
      id := s.vRandom[k - 1];
      TerribleOrDecent(s.mapInfo[id], clock(k - 1));
    }
  }

  lemma PlacesOk(h: Hashing, s: State)
    requires Core(h, s)
    ensures forall id :: id in s.mapInfo ==>
              0 <= s.mapInfo[id].nRandomPos < |s.vRandom| && s.vRandom[s.mapInfo[id].nRandomPos] == id
    ensures forall i :: 0 <= i < |s.vRandom| ==>
              s.vRandom[i] in s.mapInfo && s.mapInfo[s.vRandom[i]].nRandomPos == i
    ensures forall id, i :: id in s.mapInfo && i in s.mapInfo ==>
              s.mapInfo[id].address.service.ip == s.mapInfo[i].address.service.ip ==> id == i
  {
    forall id | id in s.mapInfo
      ensures 0 <= s.mapInfo[id].nRandomPos < |s.vRandom| && s.vRandom[s.mapInfo[id].nRandomPos] == id
      ensures s.mapAddr[s.mapInfo[id].address.service.ip] == id
    {
      assert InfoOk(h, s, id);
    }
  }

  predicate Apart(got: seq<Address>) {
    forall i, j :: 0 <= i < j < |got| ==> got[i].service.ip != got[j].service.ip
  }

  /** What GetAddr_ gives, by the state it leaves: addresses of entries that were decent when looked at, no two of the
      same host, and as many as there are of these, up to the limit. */
  ghost predicate Answers(t: State, got: seq<Address>, clock: int -> int) {
    && |got| == (if |DecentIds(t, clock)| < Limit(|t.vRandom|) then |DecentIds(t, clock)| else Limit(|t.vRandom|))
    && (forall a :: a in got ==> exists id :: id in DecentIds(t, clock) && t.mapInfo[id].address == a)
    && Apart(got)
  }

  /** GetAddr_ reorders vRandom and changes nothing else, whatever the random numbers and the readings of the clock, and
      answers well. */
  lemma GetAddrOk(h: Hashing, s: State, random: nat -> nat, clock: int -> int)
    requires Consistent(h, s)
    ensures var (t, got) := GetAddr(h, s, random, clock);
            Consistent(h, t) && Shuffled(s, t) && Answers(t, got, clock)
  {
    hide Core, Referenced, Counted, IsTerrible, IsDecent, Limit, Gather;
    var (t, got) := GetAddr(h, s, random, clock);
    var k := GatherOk(h, s, 0, Limit(|s.vRandom|), random, clock, []);
    GotEnough(h, t, k, Limit(|s.vRandom|), clock);
    forall a | a in got
      ensures exists id :: id in DecentIds(t, clock) && t.mapInfo[id].address == a
    {
      var i :| 0 <= i < |got| && got[i] == a;
      var id := DecentFrom(h, t, k, clock, i);
      assert t.mapInfo[id].address == a;
    }
    DecentDistinct(h, t, k, clock);
  }

  /** If the clock stands still the order makes no difference to which entries these are. */
  lemma SteadyClock(s: State, t: State, clock: int -> int, now: int)
    requires Shuffled(s, t) && forall n :: clock(n) == now
    ensures DecentIds(t, clock) == set id | id in s.mapInfo && IsDecent(s.mapInfo[id], now)
  {
    forall id | id in s.mapInfo
      ensures IsDecent(t.mapInfo[id], now) == IsDecent(s.mapInfo[id], now)
    {
    }
  }

  lemma GotEnough(h: Hashing, s: State, k: nat, limit: nat, clock: int -> int)
    requires Core(h, s) && k <= |s.vRandom|
    requires var n := |Decent(s.mapInfo, s.vRandom[..k], clock)|; n <= limit && (n == limit || k == |s.vRandom|)
    ensures |Decent(s.mapInfo, s.vRandom[..k], clock)|
            == if |DecentIds(s, clock)| < limit then |DecentIds(s, clock)| else limit
  {
    hide Core, IsTerrible, IsDecent;
    PlacesOk(h, s);
    DecentSize(h, s, k, clock);
    SubsetSmaller(DecentBefore(s, k, clock), DecentIds(s, clock));
    NoneBefore(h, s, clock);
  }

  lemma ApartPlus(got: seq<Address>, address: Address)
    requires Apart(got) && forall i :: 0 <= i < |got| ==> got[i].service.ip != address.service.ip
    ensures Apart(got + [address])
  {
  }

  /** No address is given twice. */
  lemma {:induction false} DecentDistinct(h: Hashing, s: State, k: nat, clock: int -> int)
    requires Core(h, s) && k <= |s.vRandom|
    ensures Apart(Decent(s.mapInfo, s.vRandom[..k], clock))
  {
    hide Core, IsTerrible, Decent;
    PlacesOk(h, s);
    if k == 0 {
      DecentNone(s.mapInfo, s.vRandom[..0], clock);
    } else {
      DecentDistinct(h, s, k - 1, clock);
      DecentMore(h, s, k - 1, clock);
      var got := Decent(s.mapInfo, s.vRandom[..k - 1], clock);
      var last := s.vRandom[k - 1];
      forall i | 0 <= i < |got|
        ensures got[i].service.ip != s.mapInfo[last].address.service.ip
      {
        var id := DecentFrom(h, s, k - 1, clock, i);
        assert s.mapInfo[last].nRandomPos == k - 1;
        assert id in s.mapInfo && id != last;
      }
      ApartPlus(got, s.mapInfo[last].address);
    }
  }

  // ---------------------------------------------------------------------------------------
  // Runs

  /** A call of a public operation, with the times and random numbers it meets. */
  datatype Call =
    | Added(routable: bool, address: Address, source: NetAddr, penalty: int, now: int, later: int, draw: nat)
    | WasGood(service: Service, time: int)
    | WasTried(service: Service, time: int)
    | WasConnected(service: Service, time: int)
    | Asked(random: nat -> nat, clock: int -> int)

  /** Times are not negative, and the time of a success is positive. */
  predicate Timely(call: Call) {
    match call
    case WasGood(_, time) => time > 0
    case WasTried(_, time) => time >= 0
    case _ => true
  }

  ghost predicate Ready(h: Hashing, s: State) {
    Consistent(h, s) && 0 <= s.nIdCount
  }

  ghost function Step(h: Hashing, s: State, call: Call): State
    requires Ready(h, s) && Timely(call)
  {
    match call
    case Added(routable, address, source, penalty, now, later, draw) =>
      Add(h, s, routable, address, source, penalty, now, later, draw).0
    case WasGood(service, time) => Good(h, s, service, time)
    case WasTried(service, time) => Attempt(s, service, time)
    case WasConnected(service, time) => Connected(s, service, time)
    case Asked(random, clock) => GetAddr(h, s, random, clock).0
  }

  /** Every operation keeps everything consistent. What was tried stays known, under its address; an
      entry that is lost was not tried. */
  lemma StepOk(h: Hashing, s: State, call: Call)
    requires Ready(h, s) && Timely(call)
    ensures var t := Step(h, s, call);
            && Ready(h, t) && t.nKey == s.nKey && t.nIdCount >= s.nIdCount
            && (forall i :: i in s.mapInfo && s.mapInfo[i].fInTried ==> i in t.mapInfo)
            && (forall i :: i in s.mapInfo && i in t.mapInfo ==>
                  t.mapInfo[i].address.service == s.mapInfo[i].address.service)
            && (forall i :: i in t.mapInfo && i !in s.mapInfo ==> i == s.nIdCount < t.nIdCount)
  {
    hide Core, Referenced, Counted, Add, Good, GetAddr;
    match call
    case Added(routable, address, source, penalty, now, later, draw) =>
      AddOk(h, s, routable, address, source, penalty, now, later, draw);
    case WasGood(service, time) =>
      GoodOk(h, s, service, time);
    case WasTried(service, time) =>
      AttemptOk(h, s, service, time);
    case WasConnected(service, time) =>
      ConnectedOk(h, s, service, time);
    case Asked(random, clock) =>
      GetAddrOk(h, s, random, clock);
  }

  /** The state after a sequence of calls on an empty address manager. That it is defined for all of them
      means that no assertion of the program is ever violated. It passes Check_ if the key is not null. */
  ghost function Run(h: Hashing, key: int, calls: seq<Call>): (s: State)
    requires forall call :: call in calls ==> Timely(call)
    ensures Ready(h, s) && s.nKey == key && (Passes(h, s) <==> key != 0)
  {
    hide Core, Referenced, Counted;
    if calls == [] then
      EmptyIsConsistent(h, key);
      EmptyState(key)
    else
      var s := Run(h, key, calls[..|calls| - 1]);
      StepOk(h, s, calls[|calls| - 1]);
      Step(h, s, calls[|calls| - 1])
  }

  // ---------------------------------------------------------------------------------------
  // Check_

  /** The new buckets that hold an id. */
  ghost function BucketsOf(s: State, id: int, n: nat): set<int> {
    set b | 0 <= b < n && b < |s.vvNew| && id in s.vvNew[b]
  }

  /** An id is in a bucket just when it is there at its position. */
  lemma InBucket(h: Hashing, s: State, id: int, b: nat)
    requires Core(h, s) && id in s.mapInfo && b < NEW_BUCKET_COUNT
    ensures |s.vvNew| == NEW_BUCKET_COUNT
    ensures At(s.vvNew, b, Position(h, s.nKey, true, b, s.mapInfo[id].address.service)) == id <==> id in s.vvNew[b]
  {
    IdsBelow(h, s);
    if id in s.vvNew[b] {
      var q :| 0 <= q < |s.vvNew[b]| && s.vvNew[b][q] == id;
      assert NewSlotOk(h, s, b, q);
    }
  }

  lemma BucketsStep(s: State, id: int, n: nat)
    ensures |BucketsOf(s, id, 0)| == 0
    ensures 0 < n <= |s.vvNew| ==>
              |BucketsOf(s, id, n)| == |BucketsOf(s, id, n - 1)| + if id in s.vvNew[n - 1] then 1 else 0
  {
    assert BucketsOf(s, id, 0) == {};
    if 0 < n <= |s.vvNew| {
      assert BucketsOf(s, id, n) == BucketsOf(s, id, n - 1) + if id in s.vvNew[n - 1] then {n - 1} else {};
    }
  }

  lemma {:induction false} RefsAreBuckets(h: Hashing, s: State, id: int, n: nat)
    requires Core(h, s) && id in s.mapInfo && n <= NEW_BUCKET_COUNT
    ensures Refs(h, s.nKey, s.vvNew, s.mapInfo[id].address.service, id, n) == |BucketsOf(s, id, n)|
  {
    hide Core, Position, At, BucketsOf;
    BucketsStep(s, id, n);
    if n > 0 {
      RefsAreBuckets(h, s, id, n - 1);
      InBucket(h, s, id, n - 1);
    }
  }

  ghost function NewIds(s: State): set<int> {
    set id | id in s.mapInfo && !s.mapInfo[id].fInTried
  }

  /** In a consistent state the counters count, and the references of an entry are the buckets it is in:
      from one to eight when it is new, none when it is tried. */
  lemma CountersCount(h: Hashing, s: State)
    requires Consistent(h, s)
    ensures s.nNew == |NewIds(s)| && s.nTried == |TriedIds(s)| && |s.vRandom| == s.nNew + s.nTried
    ensures forall id :: id in s.mapInfo ==>
              && s.mapInfo[id].nRefCount == |BucketsOf(s, id, NEW_BUCKET_COUNT)|
              && (if s.mapInfo[id].fInTried then s.mapInfo[id].nRefCount == 0 else 1 <= s.mapInfo[id].nRefCount <= 8)
  {
    assert s.mapInfo.Keys == NewIds(s) + TriedIds(s);
    assert |s.mapInfo| == |s.mapInfo.Keys|;
    forall id | id in s.mapInfo
      ensures s.mapInfo[id].nRefCount == |BucketsOf(s, id, NEW_BUCKET_COUNT)|
      ensures s.mapInfo[id].nRefCount <= 8
    {
      assert InfoOk(h, s, id);
      RefsAreBuckets(h, s, id, NEW_BUCKET_COUNT);
      if s.mapInfo[id].fInTried {
        TriedInNoBucket(h, s, id);
      }
    }
  }

  lemma TriedInNoBucket(h: Hashing, s: State, id: int)
    requires Core(h, s) && id in s.mapInfo && s.mapInfo[id].fInTried
    ensures BucketsOf(s, id, NEW_BUCKET_COUNT) == {}
  {
    IdsBelow(h, s);
    forall b, p | 0 <= b < |s.vvNew| && 0 <= p < |s.vvNew[b]|
      ensures s.vvNew[b][p] != id
    {
      assert NewSlotOk(h, s, b, p);
    }
  }
}
