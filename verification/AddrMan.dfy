/** The address manager object (CAddrMan, src/addrman.cpp, src/addrman.h): methods that change its tables
    in place, each tied to a function of the whole state.
*/
module AddrMan {
  import opened Wrappers
  import opened AddrManState
  import opened AddrManInvariant
  import opened AddrManSteps
  import opened AddrManRuns

  class CAddrMan {
    const h: Hashing
    var nKey: int
    var nIdCount: int
    var mapInfo: map<int, Info>
    var mapAddr: map<NetAddr, int>
    var vRandom: seq<int>
    var nTried: int
    var vvTried: Table
    var nNew: int
    var vvNew: Table

    function Value(): State
      reads this
    {
      State(nKey, nIdCount, mapInfo, mapAddr, vRandom, nTried, vvTried, nNew, vvNew)
    }

    constructor (h: Hashing, key: int)
      ensures Value() == EmptyState(key) && this.h == h && Consistent(h, Value())
    {
      this.h, nKey, nIdCount := h, key, 0;
      mapInfo, mapAddr, vRandom, nTried, nNew := map[], map[], [], 0, 0;
      vvTried := EmptyTable(TRIED_BUCKET_COUNT);
      vvNew := EmptyTable(NEW_BUCKET_COUNT);
      new;
      EmptyIsConsistent(h, key);
    }

    method Lookup(ip: NetAddr) returns (id: Option<int>)
      ensures id == Find(Value(), ip)
    {
      if ip !in mapAddr {
        return None;
      }
      if mapAddr[ip] in mapInfo {
        return Some(mapAddr[ip]);
      }
      return None;
    }

    method NewEntry(address: Address, source: NetAddr) returns (nId: int)
      modifies this
      ensures Value() == Create(old(Value()), address, source) && nId == old(nIdCount)
    {
      nId := nIdCount;
      nIdCount := nIdCount + 1;
      mapInfo := mapInfo[nId := NewInfo(address, source)];
      mapAddr := mapAddr[address.service.ip := nId];
      mapInfo := mapInfo[nId := mapInfo[nId].(nRandomPos := |vRandom|)];
      vRandom := vRandom + [nId];
    }

    method Swap(nRndPos1: int, nRndPos2: int)
      requires CanSwap(Value(), nRndPos1, nRndPos2)
      modifies this`mapInfo, this`vRandom
      ensures Value() == SwapRandom(old(Value()), nRndPos1, nRndPos2)
    {
      if nRndPos1 == nRndPos2 {
        return;
      }
      var nId1, nId2 := vRandom[nRndPos1], vRandom[nRndPos2];
      mapInfo := mapInfo[nId1 := mapInfo[nId1].(nRandomPos := nRndPos2)];
      mapInfo := mapInfo[nId2 := mapInfo[nId2].(nRandomPos := nRndPos1)];
      vRandom := vRandom[nRndPos1 := nId2];
      vRandom := vRandom[nRndPos2 := nId1];
    }

    method Remove(nId: int)
      requires CanDelete(Value(), nId)
      modifies this`mapInfo, this`mapAddr, this`vRandom, this`nNew
      ensures Value() == Delete(old(Value()), nId)
    {
      var ip := mapInfo[nId].address.service.ip;
      Swap(mapInfo[nId].nRandomPos, |vRandom| - 1);
      vRandom := vRandom[..|vRandom| - 1];
      mapAddr := mapAddr - {ip};
      mapInfo := mapInfo - {nId};
      nNew := nNew - 1;
    }

    method Clear(nUBucket: nat, nUBucketPos: nat)
      requires CanClear(Value(), nUBucket, nUBucketPos)
      modifies this`mapInfo, this`mapAddr, this`vRandom, this`nNew, this`vvNew
      ensures Value() == ClearNew(old(Value()), nUBucket, nUBucketPos)
    {
      var nIdDelete := vvNew[nUBucket][nUBucketPos];
      if nIdDelete != -1 {
        mapInfo := mapInfo[nIdDelete := mapInfo[nIdDelete].(nRefCount := mapInfo[nIdDelete].nRefCount - 1)];
        vvNew := vvNew[nUBucket := vvNew[nUBucket][nUBucketPos := -1]];
        assert Value() == Unslot(old(Value()), nUBucket, nUBucketPos);
        if mapInfo[nIdDelete].nRefCount == 0 {
          Remove(nIdDelete);
        }
      }
    }

    /** Takes the entry out of one bucket, if it is there. */
    method UnlistFrom(bucket: nat, nId: int)
      requires nId in mapInfo && bucket < |vvNew| && |vvNew[bucket]| == BUCKET_SIZE
      modifies this`mapInfo, this`vvNew
      ensures var pos := Position(h, nKey, true, bucket, old(mapInfo)[nId].address.service);
              if At(old(vvNew), bucket, pos) == nId then
                && vvNew == Put(old(vvNew), bucket, pos, -1)
                && mapInfo == old(mapInfo)[nId := old(mapInfo)[nId].(nRefCount := old(mapInfo)[nId].nRefCount - 1)]
              else unchanged(this)
    {
      var pos := Position(h, nKey, true, bucket, mapInfo[nId].address.service);
      if vvNew[bucket][pos] == nId {
        vvNew := Put(vvNew, bucket, pos, -1);
        mapInfo := mapInfo[nId := mapInfo[nId].(nRefCount := mapInfo[nId].nRefCount - 1)];
      }
    }

    /** The loop of MakeTried over all new buckets. */
    method Unlist(nId: int)
      requires nId in mapInfo && Shaped(vvNew, NEW_BUCKET_COUNT)
      modifies this`mapInfo, this`vvNew, this`nNew
      ensures Value() == Withdraw(h, old(Value()), nId)
    {
      hide Position, Unlisted, Refs, Put, At;
      ghost var table, info, service := vvNew, mapInfo[nId], mapInfo[nId].address.service;
      UnlistNone(h, nKey, table, service, nId);
      for bucket := 0 to NEW_BUCKET_COUNT
        invariant vvNew == Unlisted(h, nKey, table, service, nId, bucket)
        invariant mapInfo == old(mapInfo)[nId := info.(nRefCount := info.nRefCount
                                                                    - Refs(h, nKey, table, service, nId, bucket))]
        invariant Value() == old(Value()).(vvNew := vvNew, mapInfo := mapInfo)
      {
        UnlistStep(h, nKey, table, service, nId, bucket);
        UnlistFrom(bucket, nId);
      }
      nNew := nNew - 1;
    }

    /** The part of MakeTried that sends the occupant of a tried slot back to the new table. */
    method Evict(nKBucket: nat, nKBucketPos: nat)
      requires nKBucket < |vvTried| && nKBucketPos < |vvTried[nKBucket]|
      requires At(vvTried, nKBucket, nKBucketPos) in mapInfo
      requires CanGoHome(h, Untry(Value(), nKBucket, nKBucketPos), At(vvTried, nKBucket, nKBucketPos))
      modifies this
      ensures Value() == GoHome(h, Untry(old(Value()), nKBucket, nKBucketPos), old(At(vvTried, nKBucket, nKBucketPos)))
    {
      hide ClearNew, CanClear, Put;
      var nIdEvict := vvTried[nKBucket][nKBucketPos];
      TakeOut(nKBucket, nKBucketPos);
      var nUBucket := NewBucket(h, nKey, mapInfo[nIdEvict].address.service, mapInfo[nIdEvict].source);
      var nUBucketPos := Position(h, nKey, true, nUBucket, mapInfo[nIdEvict].address.service);
      Clear(nUBucket, nUBucketPos);
      mapInfo := mapInfo[nIdEvict := mapInfo[nIdEvict].(nRefCount := 1)];
      vvNew := Put(vvNew, nUBucket, nUBucketPos, nIdEvict);
      nNew := nNew + 1;
    }

    /** Removes the item to be evicted from the tried set. */
    method TakeOut(nKBucket: nat, nKBucketPos: nat)
      requires nKBucket < |vvTried| && nKBucketPos < |vvTried[nKBucket]|
      requires At(vvTried, nKBucket, nKBucketPos) in mapInfo
      modifies this
      ensures Value() == Untry(old(Value()), nKBucket, nKBucketPos)
    {
      var nIdEvict := vvTried[nKBucket][nKBucketPos];
      mapInfo := mapInfo[nIdEvict := mapInfo[nIdEvict].(fInTried := false)];
      vvTried := Put(vvTried, nKBucket, nKBucketPos, -1);
      nTried := nTried - 1;
    }

    method MoveToTried(nId: int)
      requires Core(h, Value()) && nId in mapInfo && !mapInfo[nId].fInTried
      modifies this
      ensures Value() == MakeTried(h, old(Value()), nId)
    {
      ghost var s := Value();
      var service := mapInfo[nId].address.service;
      WithdrawOk(h, s, nId);
      Unlist(nId);
      assert mapInfo[nId].nRefCount == 0;
      var nKBucket := TriedBucket(h, nKey, service);
      var nKBucketPos := Position(h, nKey, false, nKBucket, service);
      if vvTried[nKBucket][nKBucketPos] != -1 {
        UntryOk(h, Value(), nKBucket, nKBucketPos);
        GoHomeOk(h, Untry(Value(), nKBucket, nKBucketPos), vvTried[nKBucket][nKBucketPos]);
        Evict(nKBucket, nKBucketPos);
      }
      assert At(vvTried, nKBucket, nKBucketPos) == -1;
      vvTried := Put(vvTried, nKBucket, nKBucketPos, nId);
      nTried := nTried + 1;
      mapInfo := mapInfo[nId := mapInfo[nId].(fInTried := true)];
    }

    /** The search of Good_ for a new bucket that the entry is in, from a random bucket on. */
    method FindBucket(nId: int, nRnd: nat) returns (nUBucket: nat)
      requires Consistent(h, Value()) && nId in mapInfo && !mapInfo[nId].fInTried
      ensures nUBucket < NEW_BUCKET_COUNT
      ensures At(vvNew, nUBucket, Position(h, nKey, true, nUBucket, mapInfo[nId].address.service)) == nId
    {
      var service := mapInfo[nId].address.service;
      var n := 0;
      while n < NEW_BUCKET_COUNT
        invariant n <= NEW_BUCKET_COUNT
        invariant forall m: nat :: m < n ==>
                    At(vvNew, Rotated(m, nRnd), Position(h, nKey, true, Rotated(m, nRnd), service)) != nId
      {
        nUBucket := (n + nRnd) % NEW_BUCKET_COUNT;
        if At(vvNew, nUBucket, Position(h, nKey, true, nUBucket, service)) == nId {
          return;
        }
        n := n + 1;
      }
      ghost var b := SearchSucceeds(h, Value(), nId);
      RotationReaches(b, nRnd);
      assert false;
    }

    /** Good_. The exit of its search without a bucket is never taken. */
    method MarkGood(service: Service, nTime: int, nRnd: nat)
      requires Consistent(h, Value()) && nTime > 0
      modifies this
      ensures Value() == Good(h, old(Value()), service, nTime) && Consistent(h, Value())
    {
      hide Core, Referenced, Counted, MakeTried, MadeTried, IsTerrible, Refs, SameHistory;
      GoodOk(h, Value(), service, nTime);
      var id := Lookup(service.ip);
      if id == None || mapInfo[id.value].address.service != service {
        return;
      }
      TouchOk(h, Value(), id.value, Succeeded(mapInfo[id.value], nTime));
      mapInfo := mapInfo[id.value := Succeeded(mapInfo[id.value], nTime)];
      if mapInfo[id.value].fInTried {
        return;
      }
      var nUBucket := FindBucket(id.value, nRnd);
      MoveToTried(id.value);
    }

    method MarkAttempt(service: Service, nTime: int)
      requires Consistent(h, Value()) && nTime >= 0
      modifies this`mapInfo
      ensures Value() == Attempt(old(Value()), service, nTime) && Consistent(h, Value())
    {
      hide Core, Referenced, Counted, IsTerrible, Spared, OnlyTouched;
      AttemptOk(h, Value(), service, nTime);
      var id := Lookup(service.ip);
      if id == None || mapInfo[id.value].address.service != service {
        return;
      }
      var info := mapInfo[id.value];
      mapInfo := mapInfo[id.value := info.(nLastTry := nTime, nAttempts := info.nAttempts + 1)];
    }

    method MarkConnected(service: Service, nTime: int)
      requires Consistent(h, Value())
      modifies this`mapInfo
      ensures Value() == Connected(old(Value()), service, nTime) && Consistent(h, Value())
    {
      ConnectedOk(h, Value(), service, nTime);
      var id := Lookup(service.ip);
      if id == None || mapInfo[id.value].address.service != service {
        return;
      }
      var info := mapInfo[id.value];
      if nTime - info.address.nTime > 20 * 60 {
        mapInfo := mapInfo[id.value := info.(address := info.address.(nTime := nTime))];
      }
    }

    /** The end of Add_, from the choice of a new slot on. */
    method Place(nId: int, source: NetAddr, now: int)
      requires Core(h, Value()) && nId in mapInfo && !mapInfo[nId].fInTried
      modifies this
      ensures Value() == Insert(h, old(Value()), nId, source, now)
    {
      hide Core, ClearNew, Delete, CanClear, CanDelete, Cleared, Removed, Referenced, Counted, IsTerrible;
      ghost var s := Value();
      var nUBucket := NewBucket(h, nKey, mapInfo[nId].address.service, source);
      var nUBucketPos := Position(h, nKey, true, nUBucket, mapInfo[nId].address.service);
      NewSlotIs(h, s, nUBucket, nUBucketPos);
      var existing := vvNew[nUBucket][nUBucketPos];
      if existing != nId {
        var fInsert := existing == -1;
        if !fInsert {
          fInsert := Overwritable(mapInfo[existing], mapInfo[nId], now);
        }
        if fInsert {
          ClearNewOk(h, s, nUBucket, nUBucketPos);
          ClearKeeps(h, s, nUBucket, nUBucketPos, nId);
          Clear(nUBucket, nUBucketPos);
          mapInfo := mapInfo[nId := mapInfo[nId].(nRefCount := mapInfo[nId].nRefCount + 1)];
          vvNew := Put(vvNew, nUBucket, nUBucketPos, nId);
        } else if mapInfo[nId].nRefCount == 0 {
          DeleteOk(h, s, nId);
          Remove(nId);
        }
      }
    }

    /** Add_. */
    method AddAddress(routable: bool, address: Address, source: NetAddr, nTimePenalty: int,
                      now: int, later: int, random: nat) returns (fNew: bool)
      requires Consistent(h, Value()) && 0 <= nIdCount
      modifies this
      ensures (Value(), fNew) == Add(h, old(Value()), routable, address, source, nTimePenalty, now, later, random)
      ensures Consistent(h, Value()) && 0 <= nIdCount
    {
      hide Core, Referenced, Counted, Insert, Refreshed, WorthAnother, Create;
      AddOk(h, Value(), routable, address, source, nTimePenalty, now, later, random);
      if !routable {
        return false;
      }
      var id := Lookup(address.service.ip);
      if id.Some? {
        AddAgain(id.value, address, source, nTimePenalty, now, later, random);
        return false;
      }
      UnknownAddress(h, Value(), address.service.ip);
      AddNewOk(h, Value(), address, source, nTimePenalty);
      var nId := NewCounted(address, source, nTimePenalty);
      Place(nId, source, later);
      return true;
    }

    /** The part of Add_ that makes an entry for an unknown address. */
    method NewCounted(address: Address, source: NetAddr, nTimePenalty: int) returns (nId: int)
      modifies this
      ensures Value() == AddNew(old(Value()), address, source, nTimePenalty) && nId == old(nIdCount)
    {
      nId := NewEntry(address, source);
      var time := Penalized(mapInfo[nId].address.nTime, nTimePenalty);
      mapInfo := mapInfo[nId := mapInfo[nId].(address := mapInfo[nId].address.(nTime := time))];
      nNew := nNew + 1;
    }

    /** The part of Add_ about an address that is known. */
    method AddAgain(nId: int, address: Address, source: NetAddr, nTimePenalty: int, now: int, later: int, random: nat)
      requires Consistent(h, Value()) && nId in mapInfo
      modifies this
      ensures var info := Refreshed(old(mapInfo)[nId], address, nTimePenalty, now);
              var t := old(Value()).(mapInfo := old(mapInfo)[nId := info]);
              && Core(h, t)
              && Value() == if WorthAnother(info, address, random) then Insert(h, t, nId, source, later) else t
    {
      var info := Refreshed(mapInfo[nId], address, nTimePenalty, now);
      RefreshOk(h, Value(), nId, info);
      mapInfo := mapInfo[nId := info];
      if address.nTime == 0 || (info.address.nTime != 0 && address.nTime <= info.address.nTime) {
        return;
      }
      if info.fInTried {
        return;
      }
      if info.nRefCount == NEW_BUCKETS_PER_ADDRESS {
        return;
      }
      assert InfoOk(h, Value(), nId);
      var nFactor := Factor(info.nRefCount);
      if nFactor > 1 && random % nFactor != 0 {
        return;
      }
      Place(nId, source, later);
    }

    /** One round of GetAddr_. */
    method Draw(n: nat, draw: nat, now: int, vAddr: seq<Address>) returns (all: seq<Address>)
      requires Core(h, Value()) && n < |vRandom|
      modifies this`mapInfo, this`vRandom
      ensures var nRndPos := RandomPlace(draw, n, |old(vRandom)|);
              && CanSwap(old(Value()), n, nRndPos) && Value() == SwapRandom(old(Value()), n, nRndPos)
              && Core(h, Value()) && |vRandom| == |old(vRandom)| && vRandom[n] in mapInfo
              && all == if IsTerrible(mapInfo[vRandom[n]], now) then vAddr else vAddr + [mapInfo[vRandom[n]].address]
    {
      var nRndPos := RandomPlace(draw, n, |vRandom|);
      SwapOk(h, Value(), n, nRndPos);
      PlacesOk(h, SwapRandom(Value(), n, nRndPos));
      hide Core, IsTerrible;
      Swap(n, nRndPos);
      var ai := mapInfo[vRandom[n]];
      all := vAddr;
      if !IsTerrible(ai, now) {
        all := vAddr + [ai.address];
      }
    }

    /** GetAddr_. */
    method Addresses(random: nat -> nat, clock: int -> int) returns (vAddr: seq<Address>)
      requires Consistent(h, Value())
      modifies this`mapInfo, this`vRandom
      ensures (Value(), vAddr) == GetAddr(h, old(Value()), random, clock)
      ensures Consistent(h, Value()) && Answers(Value(), vAddr, clock)
    {
      hide Core, Referenced, Counted, IsTerrible, Answers, Gather, SwapRandom, CanSwap, Shuffled, RandomPlace;
      GetAddrOk(h, Value(), random, clock);
      ghost var s := Value();
      var nNodes := GETADDR_MAX_PCT * |vRandom| / 100;
      if nNodes > GETADDR_MAX {
        nNodes := GETADDR_MAX;
      }
      assert nNodes == Limit(|vRandom|);
      vAddr := [];
      var n := 0;
      while n < |vRandom|
        invariant n <= |vRandom| && Core(h, Value()) && |vRandom| == |s.vRandom|
        invariant Gather(h, Value(), n, nNodes, random, clock, vAddr) == Gather(h, s, 0, nNodes, random, clock, [])
      {
        GatherUnfolds(h, Value(), n, nNodes, random, clock, vAddr);
        if |vAddr| >= nNodes {
          return;
        }
        vAddr := Draw(n, random(n), clock(n), vAddr);
        n := n + 1;
      }
      GatherUnfolds(h, Value(), n, nNodes, random, clock, vAddr);
    }
  }

  lemma UnlistNone(h: Hashing, key: int, t: Table, service: Service, id: int)
    requires Shaped(t, NEW_BUCKET_COUNT)
    ensures Unlisted(h, key, t, service, id, 0) == t && Refs(h, key, t, service, id, 0) == 0
  {
  }

  /** One bucket more. */
  lemma UnlistStep(h: Hashing, key: int, t: Table, service: Service, id: int, n: nat)
    requires Shaped(t, NEW_BUCKET_COUNT) && n < NEW_BUCKET_COUNT
    ensures var r := Unlisted(h, key, t, service, id, n);
            var p := Position(h, key, true, n, service);
            && n < |r| && |r[n]| == BUCKET_SIZE && At(r, n, p) == At(t, n, p)
            && Unlisted(h, key, t, service, id, n + 1) == (if At(r, n, p) == id then Put(r, n, p, -1) else r)
            && Refs(h, key, t, service, id, n + 1)
               == Refs(h, key, t, service, id, n) + if At(r, n, p) == id then 1 else 0
  {
    hide Position;
  }

  /** What is in a new slot. */
  lemma NewSlotIs(h: Hashing, s: State, b: nat, p: nat)
    requires Core(h, s) && b < NEW_BUCKET_COUNT && p < BUCKET_SIZE
    ensures Shaped(s.vvNew, NEW_BUCKET_COUNT)
    ensures At(s.vvNew, b, p) == -1 || At(s.vvNew, b, p) in s.mapInfo
  {
    assert NewSlotOk(h, s, b, p);
  }

  /** Clearing a slot keeps the entries that are not in it. */
  lemma ClearKeeps(h: Hashing, s: State, b: nat, p: nat, id: int)
    requires Core(h, s) && b < NEW_BUCKET_COUNT && p < BUCKET_SIZE && id in s.mapInfo && At(s.vvNew, b, p) != id
    ensures CanClear(s, b, p) && id in ClearNew(s, b, p).mapInfo
    ensures Shaped(ClearNew(s, b, p).vvNew, NEW_BUCKET_COUNT)
  {
    hide ClearNew, CanClear;
    ClearNewOk(h, s, b, p);
  }

  /** The bucket that the search of Good_ looks at in its n-th round. */
  function Rotated(n: nat, nRnd: nat): (b: nat)
    ensures b < NEW_BUCKET_COUNT
  {
    (n + nRnd) % NEW_BUCKET_COUNT
  }

  /** The search comes to every bucket. */
  lemma RotationReaches(b: nat, nRnd: nat)
    requires b < NEW_BUCKET_COUNT
    ensures exists m: nat :: m < NEW_BUCKET_COUNT && Rotated(m, nRnd) == b
  {
    var r := nRnd % NEW_BUCKET_COUNT;
    var m := if b >= r then b - r else b + NEW_BUCKET_COUNT - r;
    assert Rotated(m, nRnd) == b;
  }

  /** 2 to the power of the reference count. */
  method Factor(nRefCount: int) returns (nFactor: nat)
    ensures nFactor == Pow2(if nRefCount < 0 then 0 else nRefCount)
  {
    nFactor := 1;
    var n := 0;
    while n < nRefCount
      invariant 0 <= n && (n <= nRefCount || n == 0) && nFactor == Pow2(n)
    {
      nFactor := nFactor * 2;
      n := n + 1;
    }
  }
}
