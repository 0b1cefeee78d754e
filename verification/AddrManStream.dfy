/** The loops of CAddrMan::Serialize and Unserialize (src/addrman.h), on the object. */
module AddrManStream {
  import opened Wrappers
  import opened AddrManState
  import opened AddrManInvariant
  import opened AddrMan
  import opened AddrManSerialization

  // ---------------------------------------------------------------------------------------
  // Writing

  lemma {:induction false} EntriesPlus(infos: map<int, Info>, ids: seq<int>, id: int)
    requires id in infos && forall i :: 0 <= i < |ids| ==> ids[i] in infos
    ensures forall i :: 0 <= i < |ids + [id]| ==> (ids + [id])[i] in infos
    ensures Entries(infos, ids + [id]) == Entries(infos, ids) + [Saved(infos[id])]
  {
    if ids == [] {
      assert ids + [id] == [id];
    } else {
      assert (ids + [id])[1..] == ids[1..] + [id];
      EntriesPlus(infos, ids[1..], id);
    }
  }

  /** The entries that are written up to an id. */
  ghost predicate Written(infos: map<int, Info>, tried: bool, id: nat, nIds: int, out: seq<Token>) {
    && nIds == |Ids(infos, tried, id)|
    && (forall i :: 0 <= i < |Ids(infos, tried, id)| ==> Ids(infos, tried, id)[i] in infos)
    && out == Entries(infos, Ids(infos, tried, id))
  }

  lemma WriteStep(infos: map<int, Info>, tried: bool, id: nat, end: nat, nIds: int, out: seq<Token>)
    requires Written(infos, tried, id, nIds, out) && id < end
    ensures if id in infos && Listed(infos[id], tried)
            then nIds < |Ids(infos, tried, end)| && Written(infos, tried, id + 1, nIds + 1, out + [Saved(infos[id])])
            else Written(infos, tried, id + 1, nIds, out)
  {
    hide Listed, Saved;
    if id in infos && Listed(infos[id], tried) {
      IdPlace(infos, tried, end, id);
      EntriesPlus(infos, Ids(infos, tried, id), id);
    } else {
      assert Ids(infos, tried, id) + [] == Ids(infos, tried, id);
    }
  }

  /** The loop that writes the new entries and numbers them; its assertion on the counter holds. */
  method WriteNews(infos: map<int, Info>, end: nat, nNew: int) returns (out: seq<Token>, mapUnkIds: map<int, int>)
    requires (forall id :: id in infos ==> 0 <= id < end) && nNew == |Ids(infos, false, end)|
    ensures Written(infos, false, end, nNew, out)
    ensures mapUnkIds.Keys == infos.Keys && forall id :: id in infos ==> mapUnkIds[id] == Index(infos, id)
  {
    hide Written, Saved;
    out, mapUnkIds := [], map[];
    var nIds := 0;
    NothingWritten(infos, false);
    for id := 0 to end
      invariant Written(infos, false, id, nIds, out)
      invariant forall i :: i in mapUnkIds <==> i in infos && i < id
      invariant forall i :: i in mapUnkIds ==> mapUnkIds[i] == Index(infos, i)
    {
      WriteStep(infos, false, id, end, nIds, out);
      IndexIs(infos, id, nIds, out);
      if id in infos {
        mapUnkIds := mapUnkIds[id := nIds];
        if infos[id].nRefCount != 0 {
          assert nIds != nNew;
          out := out + [Saved(infos[id])];
          nIds := nIds + 1;
        }
      }
    }
    WrittenCount(infos, false, end, nIds, out);
    assert mapUnkIds.Keys == infos.Keys by {
      assert forall i :: i in mapUnkIds <==> i in infos;
    }
  }

  lemma NothingWritten(infos: map<int, Info>, tried: bool)
    ensures Written(infos, tried, 0, 0, [])
  {
  }

  lemma IndexIs(infos: map<int, Info>, id: nat, nIds: int, out: seq<Token>)
    requires Written(infos, false, id, nIds, out)
    ensures Index(infos, id) == nIds
  {
  }

  lemma WrittenCount(infos: map<int, Info>, tried: bool, id: nat, nIds: int, out: seq<Token>)
    requires Written(infos, tried, id, nIds, out)
    ensures nIds == |Ids(infos, tried, id)|
  {
  }

  /** The loop that writes the tried entries; its assertion holds too. */
  method WriteTried(infos: map<int, Info>, end: nat, nTried: int) returns (out: seq<Token>)
    requires nTried == |Ids(infos, true, end)|
    ensures Written(infos, true, end, nTried, out)
  {
    hide Written, Saved;
    out := [];
    var nIds := 0;
    NothingWritten(infos, true);
    for id := 0 to end
      invariant Written(infos, true, id, nIds, out)
    {
      WriteStep(infos, true, id, end, nIds, out);
      if id in infos && infos[id].fInTried {
        assert nIds != nTried;
        out := out + [Saved(infos[id])];
        nIds := nIds + 1;
      }
    }
    WrittenCount(infos, true, end, nIds, out);
  }

  lemma ItemsStep(s: State, b: nat, p: nat)
    requires p < BUCKET_SIZE
    ensures Items(s, b, p) == (if At(s.vvNew, b, p) != -1 then [IntToken(Index(s.mapInfo, At(s.vvNew, b, p)))] else [])
                              + Items(s, b, p + 1)
    ensures Items(s, b, BUCKET_SIZE) == []
  {
  }

  /** The first loop over a bucket: its size. */
  method Occupied(s: State, bucket: nat) returns (nSize: nat)
    ensures nSize == |Items(s, bucket, 0)|
  {
    hide Index, Items, At;
    nSize := 0;
    for i := 0 to BUCKET_SIZE
      invariant nSize + |Items(s, bucket, i)| == |Items(s, bucket, 0)|
    {
      ItemsStep(s, bucket, i);
      if At(s.vvNew, bucket, i) != -1 {
        nSize := nSize + 1;
      }
    }
    ItemsStep(s, bucket, 0);
  }

  /** The loops over a bucket: its size, and the numbers of its entries. */
  method WriteBucket(s: State, bucket: nat, mapUnkIds: map<int, int>) returns (out: seq<Token>)
    requires forall b: nat, p: nat :: At(s.vvNew, b, p) != -1 ==> At(s.vvNew, b, p) in s.mapInfo
    requires mapUnkIds.Keys == s.mapInfo.Keys && forall id :: id in s.mapInfo ==> mapUnkIds[id] == Index(s.mapInfo, id)
    ensures out == [IntToken(|Items(s, bucket, 0)|)] + Items(s, bucket, 0)
  {
    hide Index, Items, At;
    var nSize := Occupied(s, bucket);
    ItemsStep(s, bucket, 0);
    out := [IntToken(nSize)];
    for i := 0 to BUCKET_SIZE
      invariant out + Items(s, bucket, i) == [IntToken(nSize)] + Items(s, bucket, 0)
    {
      ItemsStep(s, bucket, i);
      var id := At(s.vvNew, bucket, i);
      if id != -1 {
        ghost var before := out;
        out := out + [IntToken(mapUnkIds[id])];
        assert before + ([IntToken(mapUnkIds[id])] + Items(s, bucket, i + 1)) == out + Items(s, bucket, i + 1);
      } else {
        assert [] + Items(s, bucket, i + 1) == Items(s, bucket, i + 1);
      }
    }
    assert out + [] == out;
  }

  lemma BucketsStep(s: State, b: nat)
    ensures Buckets(s, b)
            == if b < NEW_BUCKET_COUNT then [IntToken(|Items(s, b, 0)|)] + Items(s, b, 0) + Buckets(s, b + 1) else []
  {
  }

  /** The loop over the buckets. */
  method WriteBuckets(s: State, mapUnkIds: map<int, int>) returns (out: seq<Token>)
    requires forall b: nat, p: nat :: At(s.vvNew, b, p) != -1 ==> At(s.vvNew, b, p) in s.mapInfo
    requires mapUnkIds.Keys == s.mapInfo.Keys && forall id :: id in s.mapInfo ==> mapUnkIds[id] == Index(s.mapInfo, id)
    ensures out == Buckets(s, 0)
  {
    hide Index, Items, Buckets, At;
    out := [];
    for bucket := 0 to NEW_BUCKET_COUNT
      invariant out + Buckets(s, bucket) == Buckets(s, 0)
    {
      ghost var before := out;
      var items := WriteBucket(s, bucket, mapUnkIds);
      out := out + items;
      BucketsStep(s, bucket);
      assert before + (items + Buckets(s, bucket + 1)) == out + Buckets(s, bucket + 1);
    }
    BucketsStep(s, NEW_BUCKET_COUNT);
    assert out + [] == out;
  }

  /** Serialize. */
  method Serialize(m: CAddrMan) returns (out: seq<Token>)
    requires Consistent(m.h, m.Value()) && 0 <= m.nIdCount
    ensures out == Stream(m.Value())
  {
    hide Consistent, Entries, Ids, Buckets, Numbered, Order, Index, Flip;
    BeforeWriting(m.h, m.Value());
    var news, mapUnkIds := WriteNews(m.mapInfo, m.nIdCount, m.nNew);
    var tried := WriteTried(m.mapInfo, m.nIdCount, m.nTried);
    var buckets := WriteBuckets(m.Value(), mapUnkIds);
    out := [ByteToken(1), ByteToken(32), KeyToken(m.nKey), IntToken(m.nNew), IntToken(m.nTried),
            IntToken(Flip(NEW_BUCKET_COUNT))] + news + tried + buckets;
  }

  lemma BeforeWriting(h: Hashing, s: State)
    requires Consistent(h, s) && 0 <= s.nIdCount
    ensures (forall id :: id in s.mapInfo ==> 0 <= id < s.nIdCount)
    ensures |Ids(s.mapInfo, false, s.nIdCount)| == s.nNew && |Ids(s.mapInfo, true, s.nIdCount)| == s.nTried
    ensures forall b: nat, p: nat :: At(s.vvNew, b, p) != -1 ==> At(s.vvNew, b, p) in s.mapInfo
  {
    hide Ids;
    NumberedOk(h, s);
    IdsBelow(h, s);
    forall b: nat, p: nat | At(s.vvNew, b, p) != -1
      ensures At(s.vvNew, b, p) in s.mapInfo
    {
      assert NewSlotOk(h, s, b, p);
    }
  }

  // ---------------------------------------------------------------------------------------
  // Reading

  /** The loop over the new entries. */
  method ReadNewsInto(m: CAddrMan, data: seq<Token>, usable: bool) returns (ok: bool, rest: seq<Token>)
    requires Shaped(m.vvNew, NEW_BUCKET_COUNT)
    modifies m
    ensures match ReadNews(m.h, old(m.Value()), data, 0, usable)
            case None => !ok
            case Some((t, r)) => ok && m.Value() == t && rest == r
  {
    hide LoadNew;
    rest := data;
    var n := 0;
    while n < m.nNew
      invariant Shaped(m.vvNew, NEW_BUCKET_COUNT)
      invariant ReadNews(m.h, m.Value(), rest, n, usable) == ReadNews(m.h, old(m.Value()), data, 0, usable)
      decreases |rest|
    {
      if rest == [] || !rest[0].InfoToken? {
        return false, rest;
      }
      LoadNewInto(m, n, Loaded(rest[0]), usable);
      rest := rest[1..];
      n := n + 1;
    }
    ok := true;
  }

  method LoadNewInto(m: CAddrMan, n: int, info: Info, usable: bool)
    requires Shaped(m.vvNew, NEW_BUCKET_COUNT)
    modifies m
    ensures m.Value() == LoadNew(m.h, old(m.Value()), n, info, usable)
  {
    hide Position, NewBucket, Put;
    ghost var s := m.Value();
    m.mapInfo := m.mapInfo[n := info];
    m.mapAddr := m.mapAddr[info.address.service.ip := n];
    m.mapInfo := m.mapInfo[n := m.mapInfo[n].(nRandomPos := |m.vRandom|)];
    m.vRandom := m.vRandom + [n];
    ghost var t := s.(mapInfo := s.mapInfo[n := info.(nRandomPos := |s.vRandom|)],
                      mapAddr := s.mapAddr[info.address.service.ip := n], vRandom := s.vRandom + [n]);
    assert m.Value() == t;
    if !usable {
      var nUBucket := NewBucket(m.h, m.nKey, info.address.service, info.source);
      var nUBucketPos := Position(m.h, m.nKey, true, nUBucket, info.address.service);
      if m.vvNew[nUBucket][nUBucketPos] == -1 {
        m.vvNew := Put(m.vvNew, nUBucket, nUBucketPos, n);
        m.mapInfo := m.mapInfo[n := m.mapInfo[n].(nRefCount := m.mapInfo[n].nRefCount + 1)];
      }
    }
  }

  /** The loop over the tried entries. */
  method ReadTriedInto(m: CAddrMan, data: seq<Token>) returns (ok: bool, rest: seq<Token>)
    requires Shaped(m.vvTried, TRIED_BUCKET_COUNT)
    modifies m
    ensures match ReadTried(m.h, old(m.Value()), data, 0, 0)
            case None => !ok
            case Some((t, r)) => ok && m.Value() == t && rest == r
  {
    hide LoadTried;
    rest := data;
    var nLost: nat := 0;
    var n := 0;
    while n < m.nTried
      invariant Shaped(m.vvTried, TRIED_BUCKET_COUNT)
      invariant ReadTried(m.h, m.Value(), rest, n, nLost) == ReadTried(m.h, old(m.Value()), data, 0, 0)
      decreases |rest|
    {
      if rest == [] || !rest[0].InfoToken? {
        return false, rest;
      }
      var placed := LoadTriedInto(m, Loaded(rest[0]));
      if !placed {
        nLost := nLost + 1;
      }
      rest := rest[1..];
      n := n + 1;
    }
    m.nTried := m.nTried - nLost;
    ok := true;
  }

  method LoadTriedInto(m: CAddrMan, entry: Info) returns (placed: bool)
    requires Shaped(m.vvTried, TRIED_BUCKET_COUNT)
    modifies m
    ensures (m.Value(), placed) == LoadTried(m.h, old(m.Value()), entry)
  {
    var nKBucket := TriedBucket(m.h, m.nKey, entry.address.service);
    var nKBucketPos := Position(m.h, m.nKey, false, nKBucket, entry.address.service);
    placed := false;
    if m.vvTried[nKBucket][nKBucketPos] == -1 {
      var info := entry.(nRandomPos := |m.vRandom|, fInTried := true);
      m.vRandom := m.vRandom + [m.nIdCount];
      m.mapInfo := m.mapInfo[m.nIdCount := info];
      m.mapAddr := m.mapAddr[info.address.service.ip := m.nIdCount];
      m.vvTried := Put(m.vvTried, nKBucket, nKBucketPos, m.nIdCount);
      m.nIdCount := m.nIdCount + 1;
      placed := true;
    }
  }

  /** The loop over the entries of a bucket. */
  method ReadItemsInto(m: CAddrMan, data: seq<Token>, bucket: nat, nSize: int, usable: bool)
      returns (ok: bool, rest: seq<Token>)
    requires Shaped(m.vvNew, NEW_BUCKET_COUNT)
    modifies m
    ensures match ReadItems(m.h, old(m.Value()), data, bucket, nSize, usable)
            case None => !ok
            case Some((t, r)) => ok && m.Value() == t && rest == r
  {
    hide LoadItem;
    rest := data;
    var n := nSize;
    while n > 0
      invariant Shaped(m.vvNew, NEW_BUCKET_COUNT)
      invariant ReadItems(m.h, m.Value(), rest, bucket, n, usable)
                == ReadItems(m.h, old(m.Value()), data, bucket, nSize, usable)
      decreases |rest|
    {
      if rest == [] || !rest[0].IntToken? {
        return false, rest;
      }
      LoadItemInto(m, bucket, rest[0].n, usable);
      rest := rest[1..];
      n := n - 1;
    }
    ok := true;
  }

  method LoadItemInto(m: CAddrMan, bucket: nat, nIndex: int, usable: bool)
    requires Shaped(m.vvNew, NEW_BUCKET_COUNT)
    modifies m
    ensures m.Value() == LoadItem(m.h, old(m.Value()), bucket, nIndex, usable)
  {
    if 0 <= nIndex < m.nNew && nIndex in m.mapInfo {
      var info := m.mapInfo[nIndex];
      var nUBucketPos := Position(m.h, m.nKey, true, bucket, info.address.service);
      if usable && bucket < NEW_BUCKET_COUNT {
        if m.vvNew[bucket][nUBucketPos] == -1 && info.nRefCount < NEW_BUCKETS_PER_ADDRESS {
          m.mapInfo := m.mapInfo[nIndex := info.(nRefCount := info.nRefCount + 1)];
          m.vvNew := Put(m.vvNew, bucket, nUBucketPos, nIndex);
        }
      }
    }
  }

  /** The loop over the buckets. */
  method ReadBucketsInto(m: CAddrMan, data: seq<Token>, nUBuckets: int, usable: bool)
      returns (ok: bool, rest: seq<Token>)
    requires Shaped(m.vvNew, NEW_BUCKET_COUNT)
    modifies m
    ensures match ReadBuckets(m.h, old(m.Value()), data, 0, nUBuckets, usable)
            case None => !ok
            case Some((t, r)) => ok && m.Value() == t && rest == r
  {
    hide ReadItems;
    rest := data;
    var bucket: nat := 0;
    while bucket < nUBuckets
      invariant Shaped(m.vvNew, NEW_BUCKET_COUNT)
      invariant ReadBuckets(m.h, m.Value(), rest, bucket, nUBuckets, usable)
                == ReadBuckets(m.h, old(m.Value()), data, 0, nUBuckets, usable)
      decreases |rest|
    {
      if rest == [] || !rest[0].IntToken? {
        return false, rest;
      }
      ok, rest := ReadItemsInto(m, rest[1..], bucket, rest[0].n, usable);
      if !ok {
        return;
      }
      bucket := bucket + 1;
    }
    ok := true;
  }

  /** The loop that deletes entries without a slot. */
  method PruneAll(m: CAddrMan) returns (ok: bool)
    modifies m
    ensures match Prune(old(m.Value()), if old(m.nIdCount) < 0 then 0 else old(m.nIdCount))
            case None => !ok
            case Some(t) => ok && m.Value() == t
  {
    hide Delete, CanDelete;
    var end := if m.nIdCount < 0 then 0 else m.nIdCount;
    var id := 0;
    ghost var start := m.Value();
    while id < end
      invariant 0 <= id <= end && Prune(start, id) == Some(m.Value())
    {
      if id in m.mapInfo && !m.mapInfo[id].fInTried && m.mapInfo[id].nRefCount == 0 {
        if !CanDelete(m.Value(), id) {
          PruneFails(start, id + 1, end);
          return false;
        }
        m.Remove(id);
      }
      id := id + 1;
    }
    ok := true;
  }

  lemma {:induction false} PruneFails(s: State, n: nat, end: nat)
    requires n <= end && Prune(s, n) == None
    ensures Prune(s, end) == None
  {
    if n < end {
      PruneFails(s, n, end - 1);
    }
  }

  /** Unserialize, after Clear. Fails where the program throws, or an assertion in it would. */
  method Unserialize(m: CAddrMan, data: seq<Token>) returns (ok: bool, rest: seq<Token>)
    requires m.Value() == EmptyState(m.nKey)
    modifies m
    ensures match Unserialized(m.h, data)
            case None => !ok
            case Some((t, r)) => ok && m.Value() == t && rest == r
  {
    hide ReadNews, ReadTried, ReadBuckets, Prune, Flip;
    rest := data;
    if |data| < 6 || !data[0].ByteToken? || !data[1].ByteToken? || data[1].b != 32 || !data[2].KeyToken?
       || !data[3].IntToken? || !data[4].IntToken? || !data[5].IntToken? {
      return false, data;
    }
    m.nKey, m.nNew, m.nTried := data[2].key, data[3].n, data[4].n;
    var nUBuckets := if data[0].b != 0 then Flip(data[5].n) else data[5].n;
    var usable := data[0].b == 1 && nUBuckets == NEW_BUCKET_COUNT;
    ok, rest := ReadNewsInto(m, data[6..], usable);
    if !ok {
      return;
    }
    m.nIdCount := data[3].n;
    ok, rest := ReadTriedInto(m, rest);
    if !ok {
      return;
    }
    ok, rest := ReadBucketsInto(m, rest, nUBuckets, usable);
    if !ok {
      return;
    }
    ok := PruneAll(m);
  }
}
