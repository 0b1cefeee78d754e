/** Saving the address manager to a stream and loading it again (CAddrMan::Serialize and Unserialize,
    src/addrman.h): ids, the tried table and most of the rest are not written but made anew.
*/
module AddrManSerialization {
  import opened Wrappers
  import opened AddrManState
  import opened AddrManInvariant

  /** A value on the stream; an entry is its address, source and two of its statistics. */
  datatype Token =
    | ByteToken(b: nat)
    | KeyToken(key: int)
    | IntToken(n: int)
    | InfoToken(address: Address, source: NetAddr, nLastSuccess: int, nAttempts: int)

  function Saved(info: Info): Token {
    InfoToken(info.address, info.source, info.nLastSuccess, info.nAttempts)
  }

  function Loaded(t: Token): Info
    requires t.InfoToken?
  {
    Info(t.address, t.source, t.nLastSuccess, 0, t.nAttempts, 0, false, -1)
  }

  const FLIP: nat := 0x4000_0000

  /** n ^ (1 << 30). */
  function Flip(n: int): int {
    if n / FLIP % 2 == 1 then n - FLIP else n + FLIP
  }

  /** It sets the bit that marks the format, and clears it again. */
  lemma FlipIs(n: int)
    ensures Flip(Flip(n)) == n
    ensures 0 <= n < 0x4000_0000 ==> Flip(n) == n + 0x4000_0000
  {
    var q, r := n / FLIP, n % FLIP;
    assert n == q * FLIP + r;
    if q % 2 == 1 {
      Quotient(n - FLIP, q - 1, r);
    } else {
      Quotient(n + FLIP, q + 1, r);
    }
  }

  lemma Quotient(n: int, q: int, r: nat)
    requires n == q * FLIP + r && r < FLIP
    ensures n / FLIP == q
  {
  }

  // ---------------------------------------------------------------------------------------
  // Writing

  /** New entries are those with references. */
  predicate Listed(info: Info, tried: bool) {
    if tried then info.fInTried else info.nRefCount != 0
  }

  /** The ids below n of the entries that are written as new or as tried, in the order of the map. */
  function Ids(infos: map<int, Info>, tried: bool, n: nat): seq<int> {
    if n == 0 then []
    else Ids(infos, tried, n - 1) + if n - 1 in infos && Listed(infos[n - 1], tried) then [n - 1] else []
  }

  /** The number an entry is written under (mapUnkIds). */
  function Index(infos: map<int, Info>, id: int): nat {
    if id < 0 then 0 else |Ids(infos, false, id)|
  }

  function Entries(infos: map<int, Info>, ids: seq<int>): seq<Token>
    requires forall i :: 0 <= i < |ids| ==> ids[i] in infos
  {
    if ids == [] then [] else [Saved(infos[ids[0]])] + Entries(infos, ids[1..])
  }

  /** The entries in the slots of a bucket, from p on. */
  function Items(s: State, b: nat, p: nat): seq<Token>
    decreases BUCKET_SIZE - p
  {
    if p >= BUCKET_SIZE then []
    else (if At(s.vvNew, b, p) != -1 then [IntToken(Index(s.mapInfo, At(s.vvNew, b, p)))] else []) + Items(s, b, p + 1)
  }

  function Buckets(s: State, b: nat): seq<Token>
    decreases NEW_BUCKET_COUNT - b
  {
    if b >= NEW_BUCKET_COUNT then [] else [IntToken(|Items(s, b, 0)|)] + Items(s, b, 0) + Buckets(s, b + 1)
  }

  lemma {:induction false} IdAt(infos: map<int, Info>, tried: bool, n: nat, k: nat)
    requires k < |Ids(infos, tried, n)|
    ensures var id := Ids(infos, tried, n)[k];
            0 <= id < n && id in infos && Listed(infos[id], tried) && |Ids(infos, tried, id)| == k
  {
    if k < |Ids(infos, tried, n - 1)| {
      IdAt(infos, tried, n - 1, k);
    }
  }

  lemma {:induction false} IdPlace(infos: map<int, Info>, tried: bool, n: nat, id: nat)
    requires id in infos && id < n && Listed(infos[id], tried)
    ensures |Ids(infos, tried, id)| < |Ids(infos, tried, n)|
    ensures Ids(infos, tried, n)[|Ids(infos, tried, id)|] == id
  {
    if id < n - 1 {
      IdPlace(infos, tried, n - 1, id);
    }
  }

  lemma IdsAre(infos: map<int, Info>, tried: bool, n: nat)
    ensures forall k :: 0 <= k < |Ids(infos, tried, n)| ==>
              var id := Ids(infos, tried, n)[k];
              0 <= id < n && id in infos && Listed(infos[id], tried) && |Ids(infos, tried, id)| == k
    ensures forall id: nat :: id in infos && id < n && Listed(infos[id], tried) ==>
              |Ids(infos, tried, id)| < |Ids(infos, tried, n)| && Ids(infos, tried, n)[|Ids(infos, tried, id)|] == id
  {
    hide Ids;
    forall k | 0 <= k < |Ids(infos, tried, n)|
      ensures var id := Ids(infos, tried, n)[k];
              0 <= id < n && id in infos && Listed(infos[id], tried) && |Ids(infos, tried, id)| == k
    {
      IdAt(infos, tried, n, k);
    }
    forall id: nat | id in infos && id < n && Listed(infos[id], tried)
      ensures |Ids(infos, tried, id)| < |Ids(infos, tried, n)| && Ids(infos, tried, n)[|Ids(infos, tried, id)|] == id
    {
      IdPlace(infos, tried, n, id);
    }
  }

  /** CAddrMan::Serialize. */
  function Stream(s: State): seq<Token>
    requires 0 <= s.nIdCount
  {
    IdsAre(s.mapInfo, false, s.nIdCount);
    IdsAre(s.mapInfo, true, s.nIdCount);
    [ByteToken(1), ByteToken(32), KeyToken(s.nKey), IntToken(s.nNew), IntToken(s.nTried),
     IntToken(Flip(NEW_BUCKET_COUNT))]
    + Entries(s.mapInfo, Ids(s.mapInfo, false, s.nIdCount)) + Entries(s.mapInfo, Ids(s.mapInfo, true, s.nIdCount))
    + Buckets(s, 0)
  }

  // ---------------------------------------------------------------------------------------
  // The new numbers of entries

  /** The ids in the order their entries are written, and the place of an entry in it. */
  function Order(s: State): seq<int>
    requires 0 <= s.nIdCount
  {
    Ids(s.mapInfo, false, s.nIdCount) + Ids(s.mapInfo, true, s.nIdCount)
  }

  function Place(s: State, id: int): int
    requires id in s.mapInfo && 0 <= id
  {
    if s.mapInfo[id].fInTried then s.nNew + |Ids(s.mapInfo, true, id)| else |Ids(s.mapInfo, false, id)|
  }

  /** Order and Place are inverse, and new entries come before tried ones. */
  ghost predicate Numbered(s: State) {
    && 0 <= s.nIdCount && 0 <= s.nNew && 0 <= s.nTried && |Order(s)| == s.nNew + s.nTried
    && (forall id :: id in s.mapInfo ==> 0 <= id)
    && (forall k :: 0 <= k < |Order(s)| ==>
          Order(s)[k] in s.mapInfo && Place(s, Order(s)[k]) == k && (s.mapInfo[Order(s)[k]].fInTried <==> s.nNew <= k))
    && (forall id :: id in s.mapInfo ==> 0 <= Place(s, id) < |Order(s)| && Order(s)[Place(s, id)] == id)
  }

  lemma ListedIs(h: Hashing, s: State, id: int)
    requires Consistent(h, s) && id in s.mapInfo
    ensures Listed(s.mapInfo[id], false) <==> !s.mapInfo[id].fInTried
    ensures 0 <= id < s.nIdCount
  {
    assert InfoOk(h, s, id);
  }

  lemma NumberedOk(h: Hashing, s: State)
    requires Consistent(h, s) && 0 <= s.nIdCount
    ensures Numbered(s) && |Ids(s.mapInfo, false, s.nIdCount)| == s.nNew
  {
    forall id | id in s.mapInfo
      ensures Listed(s.mapInfo[id], false) <==> !s.mapInfo[id].fInTried
      ensures 0 <= id < s.nIdCount
    {
      ListedIs(h, s, id);
    }
    CountsAre(s);
    OrderIsPlace(s);
  }

  ghost function IdSet(infos: map<int, Info>, tried: bool, n: nat): set<int> {
    set id | id in infos && 0 <= id < n && Listed(infos[id], tried)
  }

  lemma {:induction false} IdsCount(infos: map<int, Info>, tried: bool, n: nat)
    ensures |Ids(infos, tried, n)| == |IdSet(infos, tried, n)|
  {
    hide Listed, IdSet;
    IdSetStep(infos, tried, n);
    if n > 0 {
      IdsCount(infos, tried, n - 1);
    }
  }

  lemma IdSetStep(infos: map<int, Info>, tried: bool, n: nat)
    ensures n == 0 ==> |IdSet(infos, tried, n)| == 0
    ensures n > 0 ==> |IdSet(infos, tried, n)|
                      == |IdSet(infos, tried, n - 1)| + if n - 1 in infos && Listed(infos[n - 1], tried) then 1 else 0
  {
    hide Listed;
    if n > 0 {
      assert IdSet(infos, tried, n)
             == IdSet(infos, tried, n - 1) + if n - 1 in infos && Listed(infos[n - 1], tried) then {n - 1} else {};
    } else {
      assert IdSet(infos, tried, n) == {};
    }
  }

  lemma IdSetsAre(s: State)
    requires 0 <= s.nIdCount
    requires forall id :: id in s.mapInfo ==>
               0 <= id < s.nIdCount && (Listed(s.mapInfo[id], false) <==> !s.mapInfo[id].fInTried)
    ensures IdSet(s.mapInfo, true, s.nIdCount) == TriedIds(s) <= s.mapInfo.Keys
    ensures IdSet(s.mapInfo, false, s.nIdCount) == s.mapInfo.Keys - TriedIds(s)
  {
  }

  lemma CountsAre(s: State)
    requires 0 <= s.nIdCount && Counted(s, 0)
    requires forall id :: id in s.mapInfo ==>
               0 <= id < s.nIdCount && (Listed(s.mapInfo[id], false) <==> !s.mapInfo[id].fInTried)
    ensures |Ids(s.mapInfo, false, s.nIdCount)| == s.nNew && |Ids(s.mapInfo, true, s.nIdCount)| == s.nTried
  {
    hide IdSet, Listed, Ids, TriedIds;
    IdsCount(s.mapInfo, false, s.nIdCount);
    IdsCount(s.mapInfo, true, s.nIdCount);
    IdSetsAre(s);
    assert |s.mapInfo| == |s.mapInfo.Keys|;
    assert s.mapInfo.Keys == (s.mapInfo.Keys - TriedIds(s)) + TriedIds(s);
  }

  lemma OrderIsPlace(s: State)
    requires 0 <= s.nIdCount
    requires forall id :: id in s.mapInfo ==>
               0 <= id < s.nIdCount && (Listed(s.mapInfo[id], false) <==> !s.mapInfo[id].fInTried)
    requires |Ids(s.mapInfo, false, s.nIdCount)| == s.nNew && |Ids(s.mapInfo, true, s.nIdCount)| == s.nTried
    ensures Numbered(s)
  {
    hide Ids;
    IdsAre(s.mapInfo, false, s.nIdCount);
    IdsAre(s.mapInfo, true, s.nIdCount);
    var news, tried := Ids(s.mapInfo, false, s.nIdCount), Ids(s.mapInfo, true, s.nIdCount);
    forall k | 0 <= k < |Order(s)|
      ensures Order(s)[k] in s.mapInfo && 0 <= Order(s)[k] && Place(s, Order(s)[k]) == k
      ensures s.mapInfo[Order(s)[k]].fInTried <==> s.nNew <= k
    {
      assert Order(s)[k] == if k < |news| then news[k] else tried[k - |news|];
    }
    forall id | id in s.mapInfo
      ensures 0 <= Place(s, id) < |Order(s)| && Order(s)[Place(s, id)] == id
    {
      if s.mapInfo[id].fInTried {
        assert Listed(s.mapInfo[id], true);
      }
    }
  }

  // ---------------------------------------------------------------------------------------
  // Reading

  /** A new entry is given the next id; unless the slots that follow can be used, also its home slot, if free. */
  function LoadNew(h: Hashing, s: State, n: int, info: Info, usable: bool): (t: State)
    requires Shaped(s.vvNew, NEW_BUCKET_COUNT)
    ensures Shaped(t.vvNew, NEW_BUCKET_COUNT) && t.vvTried == s.vvTried
  {
    var t := s.(mapInfo := s.mapInfo[n := info.(nRandomPos := |s.vRandom|)],
                mapAddr := s.mapAddr[info.address.service.ip := n], vRandom := s.vRandom + [n]);
    if usable || At(t.vvNew, HomeBucket(h, t, n), HomePosition(h, t, n)) != -1 then t
    else Slot(t, HomeBucket(h, t, n), HomePosition(h, t, n), n)
  }

  /** A tried entry is given the next id and its slot, or is lost if the slot is taken. */
  function LoadTried(h: Hashing, s: State, info: Info): (r: (State, bool))
    requires Shaped(s.vvTried, TRIED_BUCKET_COUNT)
    ensures Shaped(r.0.vvTried, TRIED_BUCKET_COUNT) && r.0.vvNew == s.vvNew
  {
    var b := TriedBucket(h, s.nKey, info.address.service);
    var p := Position(h, s.nKey, false, b, info.address.service);
    if At(s.vvTried, b, p) == -1 then
      (s.(mapInfo := s.mapInfo[s.nIdCount := info.(nRandomPos := |s.vRandom|, fInTried := true)],
          mapAddr := s.mapAddr[info.address.service.ip := s.nIdCount], vRandom := s.vRandom + [s.nIdCount],
          vvTried := Put(s.vvTried, b, p, s.nIdCount), nIdCount := s.nIdCount + 1), true)
    else (s, false)
  }

  /** An entry is given a slot in a bucket, if it is known, and has room for a reference, and the slot is free. */
  function LoadItem(h: Hashing, s: State, bucket: nat, nIndex: int, usable: bool): (t: State)
    requires Shaped(s.vvNew, NEW_BUCKET_COUNT)
    ensures Shaped(t.vvNew, NEW_BUCKET_COUNT)
  {
    if 0 <= nIndex < s.nNew && nIndex in s.mapInfo && usable && bucket < NEW_BUCKET_COUNT then
      var p := Position(h, s.nKey, true, bucket, s.mapInfo[nIndex].address.service);
      if At(s.vvNew, bucket, p) == -1 && s.mapInfo[nIndex].nRefCount < NEW_BUCKETS_PER_ADDRESS
      then Slot(s, bucket, p, nIndex) else s
    else s
  }

  function ReadNews(h: Hashing, s: State, data: seq<Token>, n: int, usable: bool): (r: Option<(State, seq<Token>)>)
    requires Shaped(s.vvNew, NEW_BUCKET_COUNT)
    ensures r.Some? ==> Shaped(r.value.0.vvNew, NEW_BUCKET_COUNT) && r.value.0.vvTried == s.vvTried
    decreases |data|
  {
    if n >= s.nNew then Some((s, data))
    else if data == [] || !data[0].InfoToken? then None
    else ReadNews(h, LoadNew(h, s, n, Loaded(data[0]), usable), data[1..], n + 1, usable)
  }

  /** `lost` counts the entries that found their slot taken. */
  function ReadTried(h: Hashing, s: State, data: seq<Token>, n: int, lost: nat): (r: Option<(State, seq<Token>)>)
    requires Shaped(s.vvTried, TRIED_BUCKET_COUNT)
    ensures r.Some? ==> r.value.0.vvNew == s.vvNew
    decreases |data|
  {
    if n >= s.nTried then Some((s.(nTried := s.nTried - lost), data))
    else if data == [] || !data[0].InfoToken? then None
    else
      var (t, placed) := LoadTried(h, s, Loaded(data[0]));
      ReadTried(h, t, data[1..], n + 1, if placed then lost else lost + 1)
  }

  function ReadItems(h: Hashing, s: State, data: seq<Token>, bucket: nat, n: int, usable: bool)
      : (r: Option<(State, seq<Token>)>)
    requires Shaped(s.vvNew, NEW_BUCKET_COUNT)
    ensures r.Some? ==> Shaped(r.value.0.vvNew, NEW_BUCKET_COUNT) && |r.value.1| <= |data|
    decreases |data|
  {
    if n <= 0 then Some((s, data))
    else if data == [] || !data[0].IntToken? then None
    else ReadItems(h, LoadItem(h, s, bucket, data[0].n, usable), data[1..], bucket, n - 1, usable)
  }

  function ReadBuckets(h: Hashing, s: State, data: seq<Token>, bucket: nat, nUBuckets: int, usable: bool)
      : (r: Option<(State, seq<Token>)>)
    requires Shaped(s.vvNew, NEW_BUCKET_COUNT)
    decreases |data|
  {
    if bucket >= nUBuckets then Some((s, data))
    else if data == [] || !data[0].IntToken? then None
    else
      match ReadItems(h, s, data[1..], bucket, data[0].n, usable)
      case None => None
      case Some((t, rest)) => ReadBuckets(h, t, rest, bucket + 1, nUBuckets, usable)
  }

  /** The entries that no slot was found for are deleted again; fails if an assertion of Delete does. */
  function Prune(s: State, n: nat): Option<State> {
    if n == 0 then Some(s)
    else
      match Prune(s, n - 1)
      case None => None
      case Some(t) =>
        if n - 1 !in t.mapInfo || t.mapInfo[n - 1].fInTried || t.mapInfo[n - 1].nRefCount != 0 then Some(t)
        else if CanDelete(t, n - 1) then Some(Delete(t, n - 1))
        else None
  }

  /** The part of Unserialize after the header, into a cleared manager. */
  function ReadBody(h: Hashing, key: int, nNew: int, nTried: int, nUBuckets: int, usable: bool, data: seq<Token>)
      : Option<(State, seq<Token>)>
  {
    match ReadNews(h, EmptyState(key).(nNew := nNew, nTried := nTried), data, 0, usable)
    case None => None
    case Some((s1, data1)) =>
      match ReadTried(h, s1.(nIdCount := nNew), data1, 0, 0)
      case None => None
      case Some((s2, data2)) =>
        match ReadBuckets(h, s2, data2, 0, nUBuckets, usable)
        case None => None
        case Some((s3, rest)) =>
          match Prune(s3, if s3.nIdCount < 0 then 0 else s3.nIdCount)
          case None => None
          case Some(t) => Some((t, rest))
  }

  /** CAddrMan::Unserialize into a fresh manager. */
  function Unserialized(h: Hashing, data: seq<Token>): Option<(State, seq<Token>)> {
    if |data| < 6 || !data[0].ByteToken? || !data[1].ByteToken? || data[1].b != 32 || !data[2].KeyToken?
       || !data[3].IntToken? || !data[4].IntToken? || !data[5].IntToken? then None
    else
      var nUBuckets := if data[0].b != 0 then Flip(data[5].n) else data[5].n;
      var usable := data[0].b == 1 && nUBuckets == NEW_BUCKET_COUNT;
      ReadBody(h, data[2].key, data[3].n, data[4].n, nUBuckets, usable, data[6..])
  }

  // ---------------------------------------------------------------------------------------
  // What is read, step by step

  function Iota(n: nat): seq<int> {
    seq(n, i => i)
  }

  /** The entry number k, before it has been given its slots. */
  ghost function Base(s: State, k: nat): Info
    requires Numbered(s) && k < |Order(s)|
  {
    var i := s.mapInfo[Order(s)[k]];
    Info(i.address, i.source, i.nLastSuccess, 0, i.nAttempts, 0, i.fInTried, k)
  }

  /** The number of what is in a slot, if it is below n. */
  ghost function Renumbered(s: State, id: int, n: nat): int
    requires Numbered(s)
  {
    if id in s.mapInfo && Place(s, id) < n then Place(s, id) else -1
  }

  ghost function Renamed(s: State, t: Table, rows: nat, n: nat): (r: Table)
    requires Numbered(s)
    ensures Shaped(r, rows)
    ensures forall b: nat, p: nat :: b < rows && p < BUCKET_SIZE ==> At(r, b, p) == Renumbered(s, At(t, b, p), n)
  {
    seq(rows, b requires 0 <= b < rows =>
          seq(BUCKET_SIZE, p requires 0 <= p < BUCKET_SIZE => Renumbered(s, At(t, b, p), n)))
  }

  /** The state when n entries have been read. */
  ghost function Partway(s: State, n: nat): State
    requires Numbered(s) && n <= |Order(s)|
  {
    State(s.nKey, n, map k: int | 0 <= k < n :: Base(s, k),
          map a | a in s.mapAddr && Renumbered(s, s.mapAddr[a], n) != -1 :: Renumbered(s, s.mapAddr[a], n),
          Iota(n), s.nTried, Renamed(s, s.vvTried, TRIED_BUCKET_COUNT, n), s.nNew, EmptyTable(NEW_BUCKET_COUNT))
  }

  lemma SameTable(a: Table, b: Table, rows: nat)
    requires Shaped(a, rows) && Shaped(b, rows)
    requires forall c: nat, p: nat :: c < rows && p < BUCKET_SIZE ==> At(a, c, p) == At(b, c, p)
    ensures a == b
  {
    forall c | 0 <= c < rows
      ensures a[c] == b[c]
    {
      forall p | 0 <= p < BUCKET_SIZE
        ensures a[c][p] == b[c][p]
      {
        assert At(a, c, p) == At(b, c, p);
      }
    }
  }

  /** The address map with one more entry. */
  lemma MoreAddress(h: Hashing, s: State, n: nat)
    requires Consistent(h, s) && Numbered(s) && n < |Order(s)|
    ensures Partway(s, n + 1).mapAddr == Partway(s, n).mapAddr[Base(s, n).address.service.ip := n]
  {
    hide Consistent, Order, Place;
    var id := Order(s)[n];
    AddressOf(h, s, id);
    forall a | a in s.mapAddr
      ensures Renumbered(s, s.mapAddr[a], n + 1)
              == if a == Base(s, n).address.service.ip then n else Renumbered(s, s.mapAddr[a], n)
    {
      AddressBack(h, s, a);
    }
  }

  lemma AddressOf(h: Hashing, s: State, id: int)
    requires Consistent(h, s) && id in s.mapInfo
    ensures s.mapInfo[id].address.service.ip in s.mapAddr && s.mapAddr[s.mapInfo[id].address.service.ip] == id
  {
    assert InfoOk(h, s, id);
  }

  lemma AddressBack(h: Hashing, s: State, a: NetAddr)
    requires Consistent(h, s) && a in s.mapAddr
    ensures s.mapAddr[a] in s.mapInfo && s.mapInfo[s.mapAddr[a]].address.service.ip == a
  {
  }

  /** A new entry changes nothing in the tried table. */
  lemma MoreNewTable(h: Hashing, s: State, n: nat)
    requires Consistent(h, s) && Numbered(s) && n < s.nNew
    ensures Partway(s, n + 1).vvTried == Partway(s, n).vvTried
  {
    hide Consistent, Order, Place;
    forall b: nat, p: nat | b < TRIED_BUCKET_COUNT && p < BUCKET_SIZE
      ensures Renumbered(s, At(s.vvTried, b, p), n + 1) == Renumbered(s, At(s.vvTried, b, p), n)
    {
      TriedSlot(h, s, b, p);
    }
    SameTable(Partway(s, n + 1).vvTried, Partway(s, n).vvTried, TRIED_BUCKET_COUNT);
  }

  lemma TriedSlot(h: Hashing, s: State, b: nat, p: nat)
    requires Consistent(h, s)
    ensures var id := At(s.vvTried, b, p);
            id in s.mapInfo ==>
              && s.mapInfo[id].fInTried
              && b == TriedBucket(h, s.nKey, s.mapInfo[id].address.service)
              && p == Position(h, s.nKey, false, b, s.mapInfo[id].address.service)
  {
    assert TriedSlotOk(h, s, b, p);
    IdsBelow(h, s);
  }

  /** Reading a new entry. */
  lemma LoadNewStep(h: Hashing, s: State, n: nat)
    requires Consistent(h, s) && Numbered(s) && n < s.nNew
    ensures LoadNew(h, Partway(s, n).(nIdCount := 0), n, Loaded(Saved(s.mapInfo[Order(s)[n]])), true)
            == Partway(s, n + 1).(nIdCount := 0)
  {
    hide Consistent, Order, Place, Renumbered;
    MoreAddress(h, s, n);
    MoreNewTable(h, s, n);
    assert Iota(n + 1) == Iota(n) + [n];
    assert (map k: int | 0 <= k < n + 1 :: Base(s, k)) == (map k: int | 0 <= k < n :: Base(s, k))[n := Base(s, n)];
  }

  /** In the tried table, a tried entry is added at its slot. */
  lemma MoreTriedTable(h: Hashing, s: State, n: nat)
    requires Consistent(h, s) && Numbered(s) && s.nNew <= n < |Order(s)|
    ensures var b := TriedBucket(h, s.nKey, Base(s, n).address.service);
            var p := Position(h, s.nKey, false, b, Base(s, n).address.service);
            && At(Partway(s, n).vvTried, b, p) == -1
            && Partway(s, n + 1).vvTried == Put(Partway(s, n).vvTried, b, p, n)
  {
    hide Consistent, Order, Place;
    var id := Order(s)[n];
    TriedPlace(h, s, id);
    var b := TriedBucket(h, s.nKey, Base(s, n).address.service);
    var p := Position(h, s.nKey, false, b, Base(s, n).address.service);
    assert At(s.vvTried, b, p) == id;
    var more := Put(Partway(s, n).vvTried, b, p, n);
    forall c: nat, q: nat | c < TRIED_BUCKET_COUNT && q < BUCKET_SIZE
      ensures At(more, c, q) == Renumbered(s, At(s.vvTried, c, q), n + 1)
    {
      TriedSlot(h, s, c, q);
    }
    SameTable(Partway(s, n + 1).vvTried, more, TRIED_BUCKET_COUNT);
  }

  lemma TriedPlace(h: Hashing, s: State, id: int)
    requires Consistent(h, s) && id in s.mapInfo && s.mapInfo[id].fInTried
    ensures var b := TriedBucket(h, s.nKey, s.mapInfo[id].address.service);
            At(s.vvTried, b, Position(h, s.nKey, false, b, s.mapInfo[id].address.service)) == id
  {
    assert InfoOk(h, s, id);
  }

  /** Reading a tried entry, which finds its slot free. */
  lemma LoadTriedStep(h: Hashing, s: State, n: nat)
    requires Consistent(h, s) && Numbered(s) && s.nNew <= n < |Order(s)|
    ensures LoadTried(h, Partway(s, n), Loaded(Saved(s.mapInfo[Order(s)[n]]))) == (Partway(s, n + 1), true)
  {
    hide Consistent, Order, Place, Renumbered;
    MoreAddress(h, s, n);
    MoreTriedTable(h, s, n);
    assert Iota(n + 1) == Iota(n) + [n];
    assert (map k: int | 0 <= k < n + 1 :: Base(s, k)) == (map k: int | 0 <= k < n :: Base(s, k))[n := Base(s, n)];
  }

  /** The entries written from a place in the order on. */
  lemma EntriesFrom(s: State, ids: seq<int>, n: nat)
    requires n < |ids| && forall i :: 0 <= i < |ids| ==> ids[i] in s.mapInfo
    ensures Entries(s.mapInfo, ids[n..]) == [Saved(s.mapInfo[ids[n]])] + Entries(s.mapInfo, ids[n + 1..])
  {
    assert ids[n..][1..] == ids[n + 1..];
  }

  /** The first loop of the reader. */
  lemma {:induction false} ReadNewsOk(h: Hashing, s: State, ids: seq<int>, n: nat, rest: seq<Token>)
    requires Consistent(h, s) && Numbered(s) && n <= s.nNew == |ids| && ids == Order(s)[..s.nNew]
    ensures ReadNews(h, Partway(s, n).(nIdCount := 0), Entries(s.mapInfo, ids[n..]) + rest, n, true)
            == Some((Partway(s, s.nNew).(nIdCount := 0), rest))
    decreases s.nNew - n
  {
    hide Consistent, Order, Place, LoadNew, Partway, Renumbered;
    PartwayIs(s, n);
    if n < s.nNew {
      EntriesFrom(s, ids, n);
      LoadNewStep(h, s, n);
      ReadNewsOk(h, s, ids, n + 1, rest);
      var data := Entries(s.mapInfo, ids[n..]) + rest;
      assert data[1..] == Entries(s.mapInfo, ids[n + 1..]) + rest;
    } else {
      assert Entries(s.mapInfo, ids[n..]) + rest == rest;
    }
  }

  lemma PartwayIs(s: State, n: nat)
    requires Numbered(s) && n <= |Order(s)|
    ensures var t := Partway(s, n);
            && Shaped(t.vvNew, NEW_BUCKET_COUNT) && Shaped(t.vvTried, TRIED_BUCKET_COUNT)
            && t.nNew == s.nNew && t.nTried == s.nTried && t.nKey == s.nKey && t.nIdCount == n
  {
  }

  /** The second loop: nothing is lost. */
  lemma {:induction false} ReadTriedOk(h: Hashing, s: State, ids: seq<int>, n: nat, rest: seq<Token>)
    requires Consistent(h, s) && Numbered(s) && n <= s.nTried == |ids| && ids == Order(s)[s.nNew..]
    ensures ReadTried(h, Partway(s, s.nNew + n), Entries(s.mapInfo, ids[n..]) + rest, n, 0)
            == Some((Partway(s, |Order(s)|), rest))
    decreases s.nTried - n
  {
    hide Consistent, Order, Place, LoadTried, Partway, Renumbered, Saved, Loaded, ReadTried, Entries;
    PartwayIs(s, s.nNew + n);
    var t := Partway(s, s.nNew + n);
    var data := Entries(s.mapInfo, ids[n..]) + rest;
    if n < s.nTried {
      EntriesFrom(s, ids, n);
      SavedIs(s.mapInfo[ids[n]]);
      LoadTriedStep(h, s, s.nNew + n);
      assert data[1..] == Entries(s.mapInfo, ids[n + 1..]) + rest;
      ReadTriedNext(h, t, data, n);
      ReadTriedOk(h, s, ids, n + 1, rest);
    } else {
      NoEntries(s.mapInfo);
      assert ids[n..] == [] && data == rest;
      ReadTriedEnds(h, t, data, n);
    }
  }

  lemma SavedIs(info: Info)
    ensures Saved(info).InfoToken?
  {
  }

  lemma NoEntries(infos: map<int, Info>)
    ensures Entries(infos, []) == []
  {
  }

  lemma ReadTriedNext(h: Hashing, t: State, data: seq<Token>, n: nat)
    requires Shaped(t.vvTried, TRIED_BUCKET_COUNT) && n < t.nTried && data != [] && data[0].InfoToken?
    requires LoadTried(h, t, Loaded(data[0])).1
    ensures Shaped(LoadTried(h, t, Loaded(data[0])).0.vvTried, TRIED_BUCKET_COUNT)
    ensures ReadTried(h, t, data, n, 0) == ReadTried(h, LoadTried(h, t, Loaded(data[0])).0, data[1..], n + 1, 0)
  {
    hide LoadTried, Loaded;
  }

  lemma ReadTriedEnds(h: Hashing, t: State, data: seq<Token>, n: nat)
    requires Shaped(t.vvTried, TRIED_BUCKET_COUNT) && n >= t.nTried
    ensures ReadTried(h, t, data, n, 0) == Some((t, data))
  {
  }

  /** The references an entry has from the buckets before b, and from b if its slot there is before p. */
  ghost function RefsUpTo(h: Hashing, s: State, id: int, b: nat, p: nat): nat
    requires id in s.mapInfo
  {
    var service := s.mapInfo[id].address.service;
    var pos := Position(h, s.nKey, true, b, service);
    if s.mapInfo[id].fInTried then 0
    else Refs(h, s.nKey, s.vvNew, service, id, b) + if pos < p && At(s.vvNew, b, pos) == id then 1 else 0
  }

  predicate Done(c: nat, q: nat, b: nat, p: nat) {
    c < b || (c == b && q < p)
  }

  ghost function NewTable(s: State, b: nat, p: nat): (r: Table)
    requires Numbered(s)
    ensures Shaped(r, NEW_BUCKET_COUNT)
    ensures forall c: nat, q: nat :: c < NEW_BUCKET_COUNT && q < BUCKET_SIZE ==>
              At(r, c, q) == if Done(c, q, b, p) then Renumbered(s, At(s.vvNew, c, q), |Order(s)|) else -1
  {
    seq(NEW_BUCKET_COUNT, c requires 0 <= c < NEW_BUCKET_COUNT =>
      seq(BUCKET_SIZE, q requires 0 <= q < BUCKET_SIZE =>
        if Done(c, q, b, p) then Renumbered(s, At(s.vvNew, c, q), |Order(s)|) else -1))
  }

  /** The state when the slots of the buckets before b, and those before p in b, have been read. */
  ghost function Slotted(h: Hashing, s: State, b: nat, p: nat): State
    requires Numbered(s)
  {
    var t := Partway(s, |Order(s)|);
    t.(mapInfo := map k: int | 0 <= k < |Order(s)| :: Base(s, k).(nRefCount := RefsUpTo(h, s, Order(s)[k], b, p)),
       vvNew := NewTable(s, b, p))
  }

  lemma NewSlot(h: Hashing, s: State, b: nat, p: nat)
    requires Consistent(h, s)
    ensures var id := At(s.vvNew, b, p);
            id != -1 ==>
              && id in s.mapInfo && !s.mapInfo[id].fInTried && 0 <= id
              && p == Position(h, s.nKey, true, b, s.mapInfo[id].address.service)
  {
    assert NewSlotOk(h, s, b, p);
    IdsBelow(h, s);
  }

  /** Nothing changes over an empty slot. */
  lemma SkipSlot(h: Hashing, s: State, b: nat, p: nat)
    requires Consistent(h, s) && Numbered(s) && b < NEW_BUCKET_COUNT && p < BUCKET_SIZE && At(s.vvNew, b, p) == -1
    ensures Slotted(h, s, b, p + 1) == Slotted(h, s, b, p)
  {
    hide Consistent, Order, Place, Partway, Base;
    NoNegative(h, s);
    forall k | 0 <= k < |Order(s)|
      ensures RefsUpTo(h, s, Order(s)[k], b, p + 1) == RefsUpTo(h, s, Order(s)[k], b, p)
    {
    }
    SameTable(NewTable(s, b, p + 1), NewTable(s, b, p), NEW_BUCKET_COUNT);
  }

  lemma NoNegative(h: Hashing, s: State)
    requires Consistent(h, s)
    ensures forall id :: id in s.mapInfo ==> 0 <= id
  {
    IdsBelow(h, s);
  }

  /** From the end of a bucket to the start of the next. */
  lemma NextBucket(h: Hashing, s: State, b: nat)
    requires Consistent(h, s) && Numbered(s) && b < NEW_BUCKET_COUNT
    ensures Slotted(h, s, b, BUCKET_SIZE) == Slotted(h, s, b + 1, 0)
  {
    hide Consistent, Order, Place, Partway, Base;
    forall k | 0 <= k < |Order(s)|
      ensures RefsUpTo(h, s, Order(s)[k], b, BUCKET_SIZE) == RefsUpTo(h, s, Order(s)[k], b + 1, 0)
    {
    }
    SameTable(NewTable(s, b, BUCKET_SIZE), NewTable(s, b + 1, 0), NEW_BUCKET_COUNT);
  }

  /** Reading a slot that holds an entry. */
  lemma LoadItemStep(h: Hashing, s: State, b: nat, p: nat)
    requires Consistent(h, s) && Numbered(s) && b < NEW_BUCKET_COUNT && p < BUCKET_SIZE && At(s.vvNew, b, p) != -1
    ensures LoadItem(h, Slotted(h, s, b, p), b, Index(s.mapInfo, At(s.vvNew, b, p)), true) == Slotted(h, s, b, p + 1)
  {
    hide Consistent, Order, Place, Partway, RefsUpTo, Numbered, Slotted, NewTable, Base;
    NewSlot(h, s, b, p);
    var id := At(s.vvNew, b, p);
    PlaceOfNew(s, id);
    var k := Place(s, id);
    SlottedTables(h, s, b, p);
    RefsRoom(h, s, id, b, p);
    SlottedIs(h, s, b, p, k);
    SlotTable(h, s, b, p);
    SlotInfos(h, s, b, p);
  }

  lemma PlaceOfNew(s: State, id: int)
    requires Numbered(s) && id in s.mapInfo && !s.mapInfo[id].fInTried
    ensures 0 <= id && 0 <= Place(s, id) < s.nNew <= |Order(s)| && Order(s)[Place(s, id)] == id
    ensures Index(s.mapInfo, id) == Place(s, id)
  {
  }

  lemma SlottedTables(h: Hashing, s: State, b: nat, p: nat)
    requires Numbered(s)
    ensures var t, u := Slotted(h, s, b, p), Slotted(h, s, b, p + 1);
            && t.vvNew == NewTable(s, b, p) && u == t.(mapInfo := u.mapInfo, vvNew := NewTable(s, b, p + 1))
  {
    hide Numbered, Partway, Base, RefsUpTo;
  }

  lemma SlottedIs(h: Hashing, s: State, b: nat, p: nat, k: nat)
    requires Numbered(s) && k < |Order(s)|
    ensures var t := Slotted(h, s, b, p);
            && t.nNew == s.nNew && t.nKey == s.nKey && k in t.mapInfo
            && t.mapInfo[k].address == s.mapInfo[Order(s)[k]].address
            && t.mapInfo[k].nRefCount == RefsUpTo(h, s, Order(s)[k], b, p)
  {
    hide Order, Place, RefsUpTo, Numbered;
  }

  /** An entry that is in a bucket had room for that reference before. */
  lemma RefsRoom(h: Hashing, s: State, id: int, b: nat, p: nat)
    requires Consistent(h, s) && id in s.mapInfo && !s.mapInfo[id].fInTried && b < NEW_BUCKET_COUNT
    requires At(s.vvNew, b, p) == id && p == Position(h, s.nKey, true, b, s.mapInfo[id].address.service)
    ensures RefsUpTo(h, s, id, b, p) < NEW_BUCKETS_PER_ADDRESS
    ensures RefsUpTo(h, s, id, b, p + 1) == RefsUpTo(h, s, id, b, p) + 1
  {
    assert InfoOk(h, s, id);
    RefsMono(h, s.nKey, s.vvNew, s.mapInfo[id].address.service, id, b + 1, NEW_BUCKET_COUNT);
  }

  lemma {:induction false} RefsMono(h: Hashing, key: int, t: Table, service: Service, id: int, m: nat, n: nat)
    requires m <= n
    ensures Refs(h, key, t, service, id, m) <= Refs(h, key, t, service, id, n)
  {
    if m < n {
      RefsMono(h, key, t, service, id, m, n - 1);
    }
  }

  lemma SlotTable(h: Hashing, s: State, b: nat, p: nat)
    requires Consistent(h, s) && Numbered(s)
    requires b < NEW_BUCKET_COUNT && p < BUCKET_SIZE && At(s.vvNew, b, p) in s.mapInfo
    ensures At(NewTable(s, b, p), b, p) == -1
    ensures NewTable(s, b, p + 1) == Put(NewTable(s, b, p), b, p, Place(s, At(s.vvNew, b, p)))
  {
    hide Consistent, Order, Place;
    var more := Put(NewTable(s, b, p), b, p, Place(s, At(s.vvNew, b, p)));
    SameTable(NewTable(s, b, p + 1), more, NEW_BUCKET_COUNT);
  }

  lemma SlotInfos(h: Hashing, s: State, b: nat, p: nat)
    requires Consistent(h, s) && Numbered(s) && b < NEW_BUCKET_COUNT && p < BUCKET_SIZE
    requires var id := At(s.vvNew, b, p);
             id in s.mapInfo && p == Position(h, s.nKey, true, b, s.mapInfo[id].address.service)
             && RefsUpTo(h, s, id, b, p + 1) == RefsUpTo(h, s, id, b, p) + 1
    ensures var k := Place(s, At(s.vvNew, b, p));
            var infos := Slotted(h, s, b, p).mapInfo;
            && k in infos
            && Slotted(h, s, b, p + 1).mapInfo == infos[k := infos[k].(nRefCount := infos[k].nRefCount + 1)]
  {
    hide Consistent, Order, Place, Base, Partway, RefsUpTo, NewTable, At;
    var id := At(s.vvNew, b, p);
    forall k | 0 <= k < |Order(s)| && Order(s)[k] != id
      ensures RefsUpTo(h, s, Order(s)[k], b, p + 1) == RefsUpTo(h, s, Order(s)[k], b, p)
    {
      OtherRefs(h, s, Order(s)[k], b, p);
    }
  }

  /** A slot adds nothing to the references of other entries. */
  lemma OtherRefs(h: Hashing, s: State, id: int, b: nat, p: nat)
    requires id in s.mapInfo && At(s.vvNew, b, p) != id
    ensures RefsUpTo(h, s, id, b, p + 1) == RefsUpTo(h, s, id, b, p)
  {
    hide Refs, Position;
  }

  /** The loop over the items of a bucket, from the slot p on. */
  lemma {:induction false} ReadItemsOk(h: Hashing, s: State, b: nat, p: nat, rest: seq<Token>)
    requires Consistent(h, s) && Numbered(s) && b < NEW_BUCKET_COUNT && p <= BUCKET_SIZE
    ensures ReadItems(h, Slotted(h, s, b, p), Items(s, b, p) + rest, b, |Items(s, b, p)|, true)
            == Some((Slotted(h, s, b, BUCKET_SIZE), rest))
    decreases BUCKET_SIZE - p
  {
    hide Consistent, Numbered, Slotted, LoadItem, Index;
    SlottedShape(h, s, b, p);
    var data := Items(s, b, p) + rest;
    if p == BUCKET_SIZE {
      assert data == rest;
    } else {
      ReadItemsOk(h, s, b, p + 1, rest);
      if At(s.vvNew, b, p) == -1 {
        SkipSlot(h, s, b, p);
        assert Items(s, b, p) == Items(s, b, p + 1);
      } else {
        LoadItemStep(h, s, b, p);
        assert data[1..] == Items(s, b, p + 1) + rest;
      }
    }
  }

  lemma SlottedShape(h: Hashing, s: State, b: nat, p: nat)
    requires Numbered(s)
    ensures Shaped(Slotted(h, s, b, p).vvNew, NEW_BUCKET_COUNT)
  {
  }

  /** The loop over the buckets. */
  lemma {:induction false} ReadBucketsOk(h: Hashing, s: State, b: nat, rest: seq<Token>)
    requires Consistent(h, s) && Numbered(s) && b <= NEW_BUCKET_COUNT
    ensures ReadBuckets(h, Slotted(h, s, b, 0), Buckets(s, b) + rest, b, NEW_BUCKET_COUNT, true)
            == Some((Slotted(h, s, NEW_BUCKET_COUNT, 0), rest))
    decreases NEW_BUCKET_COUNT - b
  {
    hide Consistent, Numbered, Slotted, ReadItems, Items;
    SlottedShape(h, s, b, 0);
    var data := Buckets(s, b) + rest;
    if b == NEW_BUCKET_COUNT {
      assert data == rest;
    } else {
      var more := Buckets(s, b + 1) + rest;
      assert data == [IntToken(|Items(s, b, 0)|)] + (Items(s, b, 0) + more);
      assert data[1..] == Items(s, b, 0) + more;
      ReadItemsOk(h, s, b, 0, more);
      NextBucket(h, s, b);
      ReadBucketsOk(h, s, b + 1, rest);
    }
  }

  /** Nothing has to be deleted. */
  lemma {:induction false} NothingPruned(t: State, n: nat)
    requires forall k :: k in t.mapInfo ==> t.mapInfo[k].fInTried || t.mapInfo[k].nRefCount > 0
    ensures Prune(t, n) == Some(t)
  {
    if n > 0 {
      NothingPruned(t, n - 1);
    }
  }

  // ---------------------------------------------------------------------------------------
  // The round trip

  /** The state with entries renumbered in the order they are written, without what is kept in memory only. */
  ghost function Reloaded(h: Hashing, s: State): State
    requires Numbered(s)
  {
    Slotted(h, s, NEW_BUCKET_COUNT, 0)
  }

  ghost function Names(rename: map<int, int>): set<int> {
    set i | i in rename :: rename[i]
  }

  /** t is s but for the ids: an injective renaming carries entries, addresses and both tables from one to the
      other. The last try is forgotten, and the random order is the new order. */
  ghost predicate SameButIds(s: State, t: State, rename: map<int, int>) {
    && rename.Keys == s.mapInfo.Keys && t.mapInfo.Keys == Names(rename)
    && (forall i, j :: i in rename && j in rename && rename[i] == rename[j] ==> i == j)
    && t.nKey == s.nKey && t.nNew == s.nNew && t.nTried == s.nTried && |t.vRandom| == |s.vRandom|
    && (forall i :: i in rename ==> t.mapInfo[rename[i]] == s.mapInfo[i].(nLastTry := 0, nRandomPos := rename[i]))
    && (forall k :: 0 <= k < |t.vRandom| ==> t.vRandom[k] == k)
    && t.mapAddr.Keys == s.mapAddr.Keys
    && (forall a :: a in s.mapAddr ==> s.mapAddr[a] in rename && t.mapAddr[a] == rename[s.mapAddr[a]])
    && (forall b: nat, p: nat ::
          At(t.vvNew, b, p) == if At(s.vvNew, b, p) in rename then rename[At(s.vvNew, b, p)] else -1)
    && (forall b: nat, p: nat ::
          At(t.vvTried, b, p) == if At(s.vvTried, b, p) in rename then rename[At(s.vvTried, b, p)] else -1)
  }

  /** The references of an entry are all read back. */
  lemma AllRefs(h: Hashing, s: State, id: int)
    requires Consistent(h, s) && id in s.mapInfo
    ensures RefsUpTo(h, s, id, NEW_BUCKET_COUNT, 0) == s.mapInfo[id].nRefCount
    ensures s.mapInfo[id].fInTried || s.mapInfo[id].nRefCount > 0
  {
    assert InfoOk(h, s, id);
  }

  lemma ReloadedInfos(h: Hashing, s: State)
    requires Consistent(h, s) && Numbered(s)
    ensures var t := Reloaded(h, s);
            && (forall id :: id in s.mapInfo ==>
                  Place(s, id) in t.mapInfo
                  && t.mapInfo[Place(s, id)] == s.mapInfo[id].(nLastTry := 0, nRandomPos := Place(s, id)))
            && (forall k :: k in t.mapInfo ==>
                  0 <= k < |Order(s)| && (t.mapInfo[k].fInTried || t.mapInfo[k].nRefCount > 0))
  {
    hide Consistent, Order, Place, RefsUpTo;
    var t := Reloaded(h, s);
    forall id | id in s.mapInfo
      ensures Place(s, id) in t.mapInfo
      ensures t.mapInfo[Place(s, id)] == s.mapInfo[id].(nLastTry := 0, nRandomPos := Place(s, id))
    {
      AllRefs(h, s, id);
    }
    forall k | k in t.mapInfo
      ensures t.mapInfo[k].fInTried || t.mapInfo[k].nRefCount > 0
    {
      AllRefs(h, s, Order(s)[k]);
    }
  }

  /** Before anything is read. */
  lemma AtStart(h: Hashing, s: State)
    requires Consistent(h, s) && Numbered(s)
    ensures EmptyState(s.nKey).(nNew := s.nNew, nTried := s.nTried) == Partway(s, 0).(nIdCount := 0)
  {
    hide Consistent, Order, Place, Base;
    assert Iota(0) == [];
    forall a | a in s.mapAddr
      ensures Renumbered(s, s.mapAddr[a], 0) == -1
    {
    }
    var t := Partway(s, 0);
    assert t.mapAddr == map[];
    assert t.mapInfo == map[];
    SameTable(t.vvNew, EmptyTable(NEW_BUCKET_COUNT), NEW_BUCKET_COUNT);
    SameTable(Renamed(s, s.vvTried, TRIED_BUCKET_COUNT, 0), EmptyTable(TRIED_BUCKET_COUNT), TRIED_BUCKET_COUNT);
  }

  /** Before the slots are read. */
  lemma BeforeSlots(h: Hashing, s: State)
    requires Consistent(h, s) && Numbered(s)
    ensures Partway(s, |Order(s)|) == Slotted(h, s, 0, 0)
  {
    hide Consistent, Order, Place;
    forall k | 0 <= k < |Order(s)|
      ensures RefsUpTo(h, s, Order(s)[k], 0, 0) == 0
    {
    }
    SameTable(NewTable(s, 0, 0), EmptyTable(NEW_BUCKET_COUNT), NEW_BUCKET_COUNT);
  }

  lemma BodyOk(h: Hashing, s: State, rest: seq<Token>)
    requires Consistent(h, s) && Numbered(s) && |Ids(s.mapInfo, false, s.nIdCount)| == s.nNew
    requires forall i :: 0 <= i < |Order(s)| ==> Order(s)[i] in s.mapInfo
    ensures ReadBody(h, s.nKey, s.nNew, s.nTried, NEW_BUCKET_COUNT, true,
                     Entries(s.mapInfo, Order(s)[..s.nNew])
                     + (Entries(s.mapInfo, Order(s)[s.nNew..]) + (Buckets(s, 0) + rest)))
            == Some((Reloaded(h, s), rest))
  {
    hide Consistent, Numbered, Order, Partway, Slotted, ReadNews, ReadTried, ReadBuckets, Prune, Entries, Buckets;
    OrderSize(s);
    var news, tried := Order(s)[..s.nNew], Order(s)[s.nNew..];
    var data2 := Buckets(s, 0) + rest;
    var data1 := Entries(s.mapInfo, tried) + data2;
    AtStart(h, s);
    PartwayIs(s, 0);
    PartwayIs(s, s.nNew);
    PartwayIs(s, |Order(s)|);
    assert news[0..] == news && tried[0..] == tried;
    ReadNewsOk(h, s, news, 0, data1);
    assert Partway(s, s.nNew).(nIdCount := 0).(nIdCount := s.nNew) == Partway(s, s.nNew);
    ReadTriedOk(h, s, tried, 0, data2);
    BeforeSlots(h, s);
    ReadBucketsOk(h, s, 0, rest);
    ReloadedInfos(h, s);
    NothingPruned(Reloaded(h, s), if Reloaded(h, s).nIdCount < 0 then 0 else Reloaded(h, s).nIdCount);
  }

  lemma OrderSize(s: State)
    requires Numbered(s)
    ensures 0 <= s.nIdCount && 0 <= s.nNew && 0 <= s.nTried && |Order(s)| == s.nNew + s.nTried
  {
  }

  /** Loading what was saved gives the same state up to the ids of entries, and consumes what was written. */
  lemma RoundTrip(h: Hashing, s: State, rest: seq<Token>)
    requires Consistent(h, s) && 0 <= s.nIdCount
    ensures Numbered(s) && Unserialized(h, Stream(s) + rest) == Some((Reloaded(h, s), rest))
    ensures SameButIds(s, Reloaded(h, s), map id | id in s.mapInfo :: Place(s, id))
  {
    hide Consistent, Numbered, ReadBody, Reloaded, Entries, Buckets, Stream, Unserialized, SameButIds;
    hide Place, Ids, Order;
    NumberedOk(h, s);
    OrderParts(s);
    BodyOk(h, s, rest);
    StreamIs(s, rest);
    UnserializedIs(h, Stream(s) + rest, s.nKey, s.nNew, s.nTried);
    ReloadedSame(h, s);
  }

  lemma OrderParts(s: State)
    requires 0 <= s.nIdCount && |Ids(s.mapInfo, false, s.nIdCount)| == s.nNew
    ensures Order(s)[..s.nNew] == Ids(s.mapInfo, false, s.nIdCount)
    ensures Order(s)[s.nNew..] == Ids(s.mapInfo, true, s.nIdCount)
  {
    hide Ids;
  }

  lemma UnserializedIs(h: Hashing, data: seq<Token>, key: int, nNew: int, nTried: int)
    requires |data| >= 6 && data[..6] == [ByteToken(1), ByteToken(32), KeyToken(key), IntToken(nNew),
                                          IntToken(nTried), IntToken(Flip(NEW_BUCKET_COUNT))]
    ensures Unserialized(h, data) == ReadBody(h, key, nNew, nTried, NEW_BUCKET_COUNT, true, data[6..])
  {
    hide ReadBody;
    var head := data[..6];
    assert head[0] == data[0] && head[1] == data[1] && head[2] == data[2];
    assert head[3] == data[3] && head[4] == data[4] && head[5] == data[5];
  }

  lemma StreamIs(s: State, rest: seq<Token>)
    requires 0 <= s.nIdCount
    requires var news := Ids(s.mapInfo, false, s.nIdCount); forall i :: 0 <= i < |news| ==> news[i] in s.mapInfo
    requires var tried := Ids(s.mapInfo, true, s.nIdCount); forall i :: 0 <= i < |tried| ==> tried[i] in s.mapInfo
    ensures var data := Stream(s) + rest;
            && |data| >= 6 && data[..6] == [ByteToken(1), ByteToken(32), KeyToken(s.nKey), IntToken(s.nNew),
                                            IntToken(s.nTried), IntToken(Flip(NEW_BUCKET_COUNT))]
            && data[6..] == Entries(s.mapInfo, Ids(s.mapInfo, false, s.nIdCount))
                            + (Entries(s.mapInfo, Ids(s.mapInfo, true, s.nIdCount)) + (Buckets(s, 0) + rest))
  {
    hide Entries, Buckets, Ids;
  }

  lemma ReloadedSame(h: Hashing, s: State)
    requires Consistent(h, s) && Numbered(s)
    ensures SameButIds(s, Reloaded(h, s), map id | id in s.mapInfo :: Place(s, id))
  {
    hide Consistent, Order, Place, RefsUpTo, Base, Reloaded;
    var t := Reloaded(h, s);
    var rename := map id | id in s.mapInfo :: Place(s, id);
    ReloadedInfos(h, s);
    assert t.mapInfo.Keys == Names(rename) by {
      forall k | k in t.mapInfo
        ensures k in Names(rename)
      {
        assert rename[Order(s)[k]] == k;
      }
    }
    ReloadedIndexes(h, s);
    ReloadedTables(h, s);
  }

  lemma ReloadedIndexes(h: Hashing, s: State)
    requires Consistent(h, s) && Numbered(s)
    ensures var t := Reloaded(h, s);
            && t.nKey == s.nKey && t.nNew == s.nNew && t.nTried == s.nTried && |t.vRandom| == |s.vRandom|
            && (forall k :: 0 <= k < |t.vRandom| ==> t.vRandom[k] == k)
            && t.mapAddr.Keys == s.mapAddr.Keys
            && (forall a :: a in s.mapAddr ==>
                  s.mapAddr[a] in s.mapInfo && 0 <= s.mapAddr[a] && t.mapAddr[a] == Place(s, s.mapAddr[a]))
  {
    hide Consistent, Order, Place, RefsUpTo, Base, NewTable, Renamed;
    forall a | a in s.mapAddr
      ensures s.mapAddr[a] in s.mapInfo
    {
      AddressBack(h, s, a);
    }
    VRandomSize(h, s);
  }

  lemma ReloadedTables(h: Hashing, s: State)
    requires Consistent(h, s) && Numbered(s)
    ensures forall id :: id in s.mapInfo ==> 0 <= id
    ensures var t := Reloaded(h, s);
            forall b: nat, p: nat ::
              && At(t.vvNew, b, p) == (if At(s.vvNew, b, p) in s.mapInfo then Place(s, At(s.vvNew, b, p)) else -1)
              && At(t.vvTried, b, p) == (if At(s.vvTried, b, p) in s.mapInfo then Place(s, At(s.vvTried, b, p)) else -1)
  {
    hide Consistent, Order, Place, RefsUpTo, Base;
    TablesOutside(h, s);
  }

  lemma VRandomSize(h: Hashing, s: State)
    requires Consistent(h, s) && Numbered(s)
    ensures |s.vRandom| == |Order(s)|
  {
  }

  /** Outside the buckets there are no slots. */
  lemma TablesOutside(h: Hashing, s: State)
    requires Consistent(h, s)
    ensures forall b: nat, p: nat :: b >= NEW_BUCKET_COUNT || p >= BUCKET_SIZE ==> At(s.vvNew, b, p) == -1
    ensures forall b: nat, p: nat :: b >= TRIED_BUCKET_COUNT || p >= BUCKET_SIZE ==> At(s.vvTried, b, p) == -1
    ensures forall id :: id in s.mapInfo ==> 0 <= id
  {
    NoNegative(h, s);
  }

  // ---------------------------------------------------------------------------------------
  // Check_ after loading

  /** Renaming ids keeps references. */
  lemma {:induction false} RefsRenamed(h: Hashing, key: int, t: Table, u: Table, service: Service, i: int, j: int,
                                       n: nat)
    requires forall b: nat, p: nat :: At(t, b, p) == i <==> At(u, b, p) == j
    ensures Refs(h, key, t, service, i, n) == Refs(h, key, u, service, j, n)
  {
    if n > 0 {
      RefsRenamed(h, key, t, u, service, i, j, n - 1);
    }
  }

  lemma RenamedInfoOk(h: Hashing, s: State, t: State, rename: map<int, int>, i: int)
    requires Consistent(h, s) && SameButIds(s, t, rename) && i in rename
    requires t.nIdCount == |t.vRandom| && 0 <= rename[i] < t.nIdCount
    requires forall j :: j in rename ==> rename[j] != -1
    ensures rename[i] in t.mapInfo && InfoOk(h, t, rename[i])
  {
    assert InfoOk(h, s, i);
    assert rename[i] in Names(rename);
    forall b: nat, p: nat
      ensures At(s.vvNew, b, p) == i <==> At(t.vvNew, b, p) == rename[i]
    {
    }
    RefsRenamed(h, s.nKey, s.vvNew, t.vvNew, s.mapInfo[i].address.service, i, rename[i], NEW_BUCKET_COUNT);
  }

  /** What is the same but for ids is consistent: loading leaves nothing for Check_ to find. */
  lemma LoadedConsistent(h: Hashing, s: State)
    requires Consistent(h, s) && 0 <= s.nIdCount
    ensures Numbered(s) && Consistent(h, Reloaded(h, s))
  {
    hide Order, Place, Reloaded, SameButIds, Consistent;
    NumberedOk(h, s);
    ReloadedSame(h, s);
    ReloadedSize(h, s);
    var rename := map id | id in s.mapInfo :: Place(s, id);
    PlacesFit(s);
    SameConsistent(h, s, Reloaded(h, s), rename);
  }

  lemma PlacesFit(s: State)
    requires Numbered(s)
    ensures forall id :: id in s.mapInfo ==> 0 <= id && 0 <= Place(s, id) < |Order(s)|
  {
  }

  lemma ReloadedSize(h: Hashing, s: State)
    requires Numbered(s)
    ensures var t := Reloaded(h, s);
            && t.nIdCount == |t.vRandom| == |Order(s)|
            && Shaped(t.vvNew, NEW_BUCKET_COUNT) && Shaped(t.vvTried, TRIED_BUCKET_COUNT)
            && forall k :: 0 <= k < |t.vRandom| ==> k in t.mapInfo
  {
    hide Order, RefsUpTo, Base;
  }

  lemma SameConsistent(h: Hashing, s: State, t: State, rename: map<int, int>)
    requires Consistent(h, s) && SameButIds(s, t, rename)
    requires Shaped(t.vvNew, NEW_BUCKET_COUNT) && Shaped(t.vvTried, TRIED_BUCKET_COUNT)
    requires t.nIdCount == |t.vRandom| && forall i :: i in rename ==> 0 <= rename[i] < t.nIdCount
    requires forall k :: 0 <= k < |t.vRandom| ==> k in t.mapInfo
    ensures Consistent(h, t)
  {
    hide Core, Counted;
    SameCore(h, s, t, rename);
    SameCounted(h, s, t, rename);
    forall k | k in t.mapInfo && !t.mapInfo[k].fInTried
      ensures t.mapInfo[k].nRefCount >= 1
    {
      var i := NameOf(rename, k);
    }
  }

  lemma SameCore(h: Hashing, s: State, t: State, rename: map<int, int>)
    requires Consistent(h, s) && SameButIds(s, t, rename)
    requires Shaped(t.vvNew, NEW_BUCKET_COUNT) && Shaped(t.vvTried, TRIED_BUCKET_COUNT)
    requires t.nIdCount == |t.vRandom| && forall i :: i in rename ==> 0 <= rename[i] < t.nIdCount
    requires forall k :: 0 <= k < |t.vRandom| ==> k in t.mapInfo
    ensures Core(h, t)
  {
    forall k | k in t.mapInfo
      ensures InfoOk(h, t, k)
    {
      var i := NameOf(rename, k);
      RenamedInfoOk(h, s, t, rename, i);
    }
    SameSlots(h, s, t, rename);
    SameRandom(s, t, rename);
  }

  lemma SameSlots(h: Hashing, s: State, t: State, rename: map<int, int>)
    requires Core(h, s) && SameButIds(s, t, rename)
    ensures forall b: nat, p: nat :: NewSlotOk(h, t, b, p) && TriedSlotOk(h, t, b, p)
    ensures AddrOk(t)
  {
    forall b: nat, p: nat
      ensures NewSlotOk(h, t, b, p) && TriedSlotOk(h, t, b, p)
    {
      assert NewSlotOk(h, s, b, p) && TriedSlotOk(h, s, b, p);
      assert At(s.vvNew, b, p) in rename ==> rename[At(s.vvNew, b, p)] in Names(rename);
      assert At(s.vvTried, b, p) in rename ==> rename[At(s.vvTried, b, p)] in Names(rename);
    }
    forall a | a in t.mapAddr
      ensures t.mapAddr[a] in t.mapInfo && t.mapInfo[t.mapAddr[a]].address.service.ip == a
    {
      assert a in t.mapAddr.Keys && a in s.mapAddr;
      var i := s.mapAddr[a];
      assert i in rename && rename[i] in Names(rename);
    }
  }

  lemma SameRandom(s: State, t: State, rename: map<int, int>)
    requires SameButIds(s, t, rename) && forall k :: 0 <= k < |t.vRandom| ==> k in t.mapInfo
    ensures RandomOk(t)
  {
    forall k | 0 <= k < |t.vRandom|
      ensures t.vRandom[k] in t.mapInfo && t.mapInfo[t.vRandom[k]].nRandomPos == k
    {
      var i := NameOf(rename, k);
    }
  }

  lemma NameOf(rename: map<int, int>, k: int) returns (i: int)
    requires k in Names(rename)
    ensures i in rename && rename[i] == k
  {
    i :| i in rename && rename[i] == k;
  }

  /** An injective renaming of a set has as many names. */
  lemma {:induction false} RenameCount(ids: set<int>, rename: map<int, int>)
    requires ids == rename.Keys && forall i, j :: i in rename && j in rename && rename[i] == rename[j] ==> i == j
    ensures |Names(rename)| == |ids|
    decreases ids
  {
    if i :| i in ids {
      var fewer := rename - {i};
      assert fewer.Keys == ids - {i};
      RenameCount(ids - {i}, fewer);
      assert |ids| == |ids - {i}| + 1;
      assert Names(rename) == Names(fewer) + {rename[i]} && rename[i] !in Names(fewer) by {
        forall v | v in Names(rename)
          ensures v in Names(fewer) + {rename[i]}
        {
          var j := NameOf(rename, v);
          assert j != i ==> j in fewer && fewer[j] == v;
        }
        forall v | v in Names(fewer)
          ensures v in Names(rename) && v != rename[i]
        {
          var j := NameOf(fewer, v);
          assert rename[j] == v;
        }
        assert rename[i] in Names(rename);
      }
    } else {
      assert forall i :: i !in ids;
      assert ids == {};
      assert forall i :: i in rename ==> i in ids;
      assert Names(rename) == {};
    }
  }

  lemma SameCounted(h: Hashing, s: State, t: State, rename: map<int, int>)
    requires Consistent(h, s) && SameButIds(s, t, rename)
    ensures Counted(t, 0)
  {
    hide Core, Referenced, TriedIds, Names, NewSlotOk, TriedSlotOk, At;
    RenameCount(s.mapInfo.Keys, rename);
    assert |s.mapInfo| == |s.mapInfo.Keys| && |t.mapInfo| == |t.mapInfo.Keys|;
    SameTried(s, t, rename);
  }

  lemma SameTried(s: State, t: State, rename: map<int, int>)
    requires SameButIds(s, t, rename)
    ensures |TriedIds(t)| == |TriedIds(s)|
  {
    hide At;
    var tried := map i | i in TriedIds(s) :: rename[i];
    RenameCount(TriedIds(s), tried);
    forall k
      ensures k in TriedIds(t) <==> k in Names(tried)
    {
      if k in TriedIds(t) {
        var i := NameOf(rename, k);
        assert i in tried && tried[i] == k;
      }
      if k in Names(tried) {
        var i := NameOf(tried, k);
        assert rename[i] in Names(rename);
      }
    }
    assert TriedIds(t) == Names(tried);
  }

  /** From any stream, the counter ends up counting the tried entries that found their slot free. */
  lemma {:induction false} ReadTriedCounts(h: Hashing, s: State, data: seq<Token>, n: int, lost: nat)
    requires Shaped(s.vvTried, TRIED_BUCKET_COUNT) && n <= s.nTried
    ensures var r := ReadTried(h, s, data, n, lost);
            r.Some? ==> r.value.0.nTried - (|r.value.0.vRandom| - |s.vRandom|) == n - lost
    decreases |data|
  {
    hide Position, TriedBucket, At, Put, Loaded;
    if n < s.nTried && data != [] && data[0].InfoToken? {
      var (t, placed) := LoadTried(h, s, Loaded(data[0]));
      ReadTriedCounts(h, t, data[1..], n + 1, if placed then lost else lost + 1);
    }
  }

  // ---------------------------------------------------------------------------------------
  // Loading what was saved with other tables

  /** The slot an entry belongs to by its own source. */
  function Home(h: Hashing, key: int, info: Info): (nat, nat) {
    var b := NewBucket(h, key, info.address.service, info.source);
    (b, Position(h, key, true, b, info.address.service))
  }

  /** No earlier entry belongs to the same slot. */
  predicate FirstHome(h: Hashing, key: int, infos: seq<Info>, k: nat)
    requires k < |infos|
  {
    forall j :: 0 <= j < k ==> Home(h, key, infos[j]) != Home(h, key, infos[k])
  }

  /** Each of the first n entries is in the slot it belongs to, unless an earlier one is, and nothing else is in the
      new table. */
  ghost predicate AtHome(h: Hashing, s: State, infos: seq<Info>, n: nat)
    requires n <= |infos|
  {
    && Shaped(s.vvNew, NEW_BUCKET_COUNT) && |s.vRandom| == n
    && (forall k: nat :: k < n ==>
          && k in s.mapInfo && s.vRandom[k] == k
          && s.mapInfo[k] == infos[k].(nRandomPos := k, nRefCount := if FirstHome(h, s.nKey, infos, k) then 1 else 0)
          && (FirstHome(h, s.nKey, infos, k) ==>
                At(s.vvNew, Home(h, s.nKey, infos[k]).0, Home(h, s.nKey, infos[k]).1) == k))
    && (forall b: nat, p: nat :: At(s.vvNew, b, p) != -1 ==>
          var k := At(s.vvNew, b, p);
          0 <= k < n && Home(h, s.nKey, infos[k]) == (b, p))
  }

  lemma AtHomeMore(h: Hashing, s: State, infos: seq<Info>, n: nat)
    requires n < |infos| && AtHome(h, s, infos, n) && infos[n].nRefCount == 0
    ensures AtHome(h, LoadNew(h, s, n, infos[n], false), infos, n + 1)
  {
    hide Position, NewBucket, At, Put, LoadNew, FirstHome, Home;
    HomeIsFree(h, s, infos, n);
    LoadNewIs(h, s, n, infos[n], FirstHome(h, s.nKey, infos, n));
  }

  /** Its home is free just for the first entry that belongs there. */
  lemma HomeIsFree(h: Hashing, s: State, infos: seq<Info>, n: nat)
    requires n < |infos| && AtHome(h, s, infos, n)
    ensures At(s.vvNew, Home(h, s.nKey, infos[n]).0, Home(h, s.nKey, infos[n]).1) == -1
            <==> FirstHome(h, s.nKey, infos, n)
  {
    hide Position, NewBucket, At, Home;
    var home := Home(h, s.nKey, infos[n]);
    if At(s.vvNew, home.0, home.1) == -1 {
      NoFirstNone(h, s.nKey, infos, n, home);
    }
  }

  /** What loading a new entry does when the saved slots cannot be used. */
  lemma LoadNewIs(h: Hashing, s: State, n: nat, info: Info, free: bool)
    requires Shaped(s.vvNew, NEW_BUCKET_COUNT) && info.nRefCount == 0
    requires free <==> At(s.vvNew, Home(h, s.nKey, info).0, Home(h, s.nKey, info).1) == -1
    ensures var t := LoadNew(h, s, n, info, false);
            && t.nKey == s.nKey && t.vRandom == s.vRandom + [n]
            && t.mapInfo == s.mapInfo[n := info.(nRandomPos := |s.vRandom|, nRefCount := if free then 1 else 0)]
            && (forall b: nat, p: nat ::
                  At(t.vvNew, b, p) == if free && (b, p) == Home(h, s.nKey, info) then n else At(s.vvNew, b, p))
  {
    hide Position, NewBucket, At, Put;
  }

  lemma {:induction false} NoFirstNone(h: Hashing, key: int, infos: seq<Info>, n: nat, home: (nat, nat))
    requires n <= |infos|
    requires forall j: nat :: j < n && Home(h, key, infos[j]) == home ==> !FirstHome(h, key, infos, j)
    ensures forall j: nat :: j < n ==> Home(h, key, infos[j]) != home
  {
    if n > 0 {
      NoFirstNone(h, key, infos, n - 1, home);
    }
  }

  /** When the slots that were saved cannot be used, because the version or the number of buckets is another, every
      new entry is given the slot it belongs to, if it is the first that does. */
  lemma {:induction false} ReadNewsAtHome(h: Hashing, s: State, infos: seq<Info>, data: seq<Token>, n: nat)
    requires s.nNew == |infos| <= |data| && n <= |infos| && AtHome(h, s, infos, n)
    requires forall k :: 0 <= k < |infos| ==> data[k].InfoToken? && infos[k] == Loaded(data[k])
    ensures var r := ReadNews(h, s, data[n..], n, false);
            && r.Some? && AtHome(h, r.value.0, infos, |infos|) && r.value.1 == data[|infos|..]
            && r.value.0.nKey == s.nKey
    decreases |infos| - n
  {
    hide AtHome, LoadNew, Loaded;
    AtHomeShaped(h, s, infos, n);
    if n < |infos| {
      var t := LoadNew(h, s, n, infos[n], false);
      LoadedFresh(data[n]);
      AtHomeMore(h, s, infos, n);
      LoadNewKeeps(h, s, n, infos[n], false);
      ReadNewsAtHome(h, t, infos, data, n + 1);
      assert data[n..][0] == data[n] && data[n..][1..] == data[n + 1..];
    }
  }

  lemma AtHomeShaped(h: Hashing, s: State, infos: seq<Info>, n: nat)
    requires n <= |infos| && AtHome(h, s, infos, n)
    ensures Shaped(s.vvNew, NEW_BUCKET_COUNT)
  {
  }

  lemma LoadedFresh(token: Token)
    requires token.InfoToken?
    ensures Loaded(token).nRefCount == 0
  {
  }

  lemma LoadNewKeeps(h: Hashing, s: State, n: int, info: Info, usable: bool)
    requires Shaped(s.vvNew, NEW_BUCKET_COUNT)
    ensures LoadNew(h, s, n, info, usable).nNew == s.nNew && LoadNew(h, s, n, info, usable).nKey == s.nKey
  {
  }
}
