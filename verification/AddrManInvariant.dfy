/** The consistency of the address manager (Check_, src/addrman.cpp) and how its basic operations keep it. */
module AddrManInvariant {
  import opened AddrManState

  /** One entry: its id in use, found by its address and its place in vRandom; in the tried table at
      its place after a success and without references, or in as many new buckets as it has references. */
  ghost predicate InfoOk(h: Hashing, s: State, id: int)
    requires id in s.mapInfo
  {
    var info := s.mapInfo[id];
    var service := info.address.service;
    && 0 <= id < s.nIdCount
    && service.ip in s.mapAddr && s.mapAddr[service.ip] == id
    && 0 <= info.nRandomPos < |s.vRandom| && s.vRandom[info.nRandomPos] == id
    && 0 <= info.nLastTry && 0 <= info.nLastSuccess
    && (if info.fInTried then
          && info.nRefCount == 0 && info.nLastSuccess != 0
          && At(s.vvTried, TriedBucket(h, s.nKey, service),
                Position(h, s.nKey, false, TriedBucket(h, s.nKey, service), service)) == id
        else
          info.nRefCount == Refs(h, s.nKey, s.vvNew, service, id, NEW_BUCKET_COUNT) <= NEW_BUCKETS_PER_ADDRESS)
  }

  /** One new slot: empty, or holding an entry that is not tried, at its hashed position. */
  ghost predicate NewSlotOk(h: Hashing, s: State, b: nat, p: nat) {
    var id := At(s.vvNew, b, p);
    id != -1 ==>
      && id in s.mapInfo && !s.mapInfo[id].fInTried
      && p == Position(h, s.nKey, true, b, s.mapInfo[id].address.service)
  }

  /** One tried slot: empty, or holding a tried entry, in its hashed bucket and position. */
  ghost predicate TriedSlotOk(h: Hashing, s: State, b: nat, p: nat) {
    var id := At(s.vvTried, b, p);
    id != -1 ==>
      && id in s.mapInfo && s.mapInfo[id].fInTried
      && b == TriedBucket(h, s.nKey, s.mapInfo[id].address.service)
      && p == Position(h, s.nKey, false, b, s.mapInfo[id].address.service)
  }

  ghost predicate AddrOk(s: State) {
    forall a :: a in s.mapAddr ==> s.mapAddr[a] in s.mapInfo && s.mapInfo[s.mapAddr[a]].address.service.ip == a
  }

  ghost predicate RandomOk(s: State) {
    forall i :: 0 <= i < |s.vRandom| ==> s.vRandom[i] in s.mapInfo && s.mapInfo[s.vRandom[i]].nRandomPos == i
  }

  /** All indexes agree; nothing is said yet of entries without references, or of the counters. */
  ghost predicate Core(h: Hashing, s: State) {
    && Shaped(s.vvNew, NEW_BUCKET_COUNT) && Shaped(s.vvTried, TRIED_BUCKET_COUNT)
    && (forall id :: id in s.mapInfo ==> InfoOk(h, s, id))
    && (forall b: nat, p: nat :: NewSlotOk(h, s, b, p))
    && (forall b: nat, p: nat :: TriedSlotOk(h, s, b, p))
    && AddrOk(s) && RandomOk(s)
  }

  /** Every entry that is not tried has a reference, but for those named. */
  ghost predicate Referenced(s: State, but: set<int>) {
    forall id :: id in s.mapInfo && id !in but && !s.mapInfo[id].fInTried ==> s.mapInfo[id].nRefCount >= 1
  }

  ghost function TriedIds(s: State): set<int> {
    set id | id in s.mapInfo && s.mapInfo[id].fInTried
  }

  /** The counters, when `loose` entries are counted neither as new nor as tried. */
  ghost predicate Counted(s: State, loose: nat) {
    && |s.vRandom| == |s.mapInfo|
    && s.nTried == |TriedIds(s)|
    && s.nNew == |s.vRandom| - s.nTried - loose
  }

  /** What Check_ checks, but for the key. */
  ghost predicate Consistent(h: Hashing, s: State) {
    Core(h, s) && Referenced(s, {}) && Counted(s, 0)
  }

  /** What Check_ checks; zero is the null key. */
  ghost predicate Passes(h: Hashing, s: State) {
    Consistent(h, s) && s.nKey != 0
  }

  lemma EmptyIsConsistent(h: Hashing, key: int)
    ensures Consistent(h, EmptyState(key)) && (Passes(h, EmptyState(key)) <==> key != 0)
  {
    assert TriedIds(EmptyState(key)) == {};
  }

  // ---------------------------------------------------------------------------------------
  // References

  /** A table that differs from another in slots of other ids only has the same references. */
  lemma {:induction false} RefsSame(h: Hashing, key: int, t: Table, u: Table, service: Service, id: int, n: nat)
    requires forall b: nat, p: nat :: b < n ==> (At(t, b, p) == id <==> At(u, b, p) == id)
    ensures Refs(h, key, t, service, id, n) == Refs(h, key, u, service, id, n)
  {
    if n > 0 {
      RefsSame(h, key, t, u, service, id, n - 1);
    }
  }

  /** Emptying one of an id's slots takes one reference, filling one adds one. */
  lemma {:induction false} RefsPut(h: Hashing, key: int, t: Table, service: Service, id: int, b: nat, v: int, n: nat)
    requires var p := Position(h, key, true, b, service); b < |t| && p < |t[b]|
    ensures var p := Position(h, key, true, b, service);
            Refs(h, key, Put(t, b, p, v), service, id, n)
            == Refs(h, key, t, service, id, n)
               + if b < n then (if v == id then 1 else 0) - (if At(t, b, p) == id then 1 else 0) else 0
  {
    if n > 0 {
      RefsPut(h, key, t, service, id, b, v, n - 1);
    }
  }

  /** An id without references is in none of its slots. */
  lemma {:induction false} NoRefs(h: Hashing, key: int, t: Table, service: Service, id: int, n: nat)
    requires forall b :: 0 <= b < n ==> At(t, b, Position(h, key, true, b, service)) != id
    ensures Refs(h, key, t, service, id, n) == 0
  {
    if n > 0 {
      NoRefs(h, key, t, service, id, n - 1);
    }
  }

  lemma {:induction false} RefsCountSlot(h: Hashing, key: int, t: Table, service: Service, id: int, b: nat, n: nat)
    requires b < n && At(t, b, Position(h, key, true, b, service)) == id
    ensures Refs(h, key, t, service, id, n) >= 1
  {
    if b < n - 1 {
      RefsCountSlot(h, key, t, service, id, b, n - 1);
    }
  }

  /** An id with references is in one of its slots. */
  lemma {:induction false} SomeSlot(h: Hashing, key: int, t: Table, service: Service, id: int, n: nat) returns (b: nat)
    requires Refs(h, key, t, service, id, n) >= 1
    ensures b < n && At(t, b, Position(h, key, true, b, service)) == id
  {
    if At(t, n - 1, Position(h, key, true, n - 1, service)) == id {
      b := n - 1;
    } else {
      b := SomeSlot(h, key, t, service, id, n - 1);
    }
  }

  // ---------------------------------------------------------------------------------------
  // Entries

  /** The parts of an entry that the indexes depend on. */
  predicate SameIndexed(a: Info, b: Info) {
    && a.address.service == b.address.service && a.source == b.source
    && a.nRefCount == b.nRefCount && a.fInTried == b.fInTried && a.nRandomPos == b.nRandomPos
  }

  /** Changing the statistics of an entry keeps the indexes. */
  lemma TouchOk(h: Hashing, s: State, id: int, info: Info)
    requires Core(h, s) && id in s.mapInfo && SameIndexed(s.mapInfo[id], info)
    requires 0 <= info.nLastTry && 0 <= info.nLastSuccess && (info.fInTried ==> info.nLastSuccess != 0)
    ensures var t := s.(mapInfo := s.mapInfo[id := info]);
            && Core(h, t)
            && (forall but :: Referenced(s, but) ==> Referenced(t, but))
            && (forall loose :: Counted(s, loose) ==> Counted(t, loose))
  {
    var t := s.(mapInfo := s.mapInfo[id := info]);
    forall i | i in t.mapInfo
      ensures InfoOk(h, t, i)
    {
      assert InfoOk(h, s, i);
    }
    forall b: nat, p: nat
      ensures NewSlotOk(h, t, b, p) && TriedSlotOk(h, t, b, p)
    {
      assert NewSlotOk(h, s, b, p) && TriedSlotOk(h, s, b, p);
    }
    assert TriedIds(t) == TriedIds(s);
  }

  lemma IdsBelow(h: Hashing, s: State)
    requires Core(h, s)
    ensures forall id :: id in s.mapInfo ==> 0 <= id < s.nIdCount
  {
    forall id | id in s.mapInfo
      ensures 0 <= id < s.nIdCount
    {
      assert InfoOk(h, s, id);
    }
  }

  /** A new entry for an unknown address: consistent but for its missing reference. */
  lemma CreateOk(h: Hashing, s: State, address: Address, source: NetAddr)
    requires Core(h, s) && address.service.ip !in s.mapAddr && 0 <= s.nIdCount
    ensures var t := Create(s, address, source);
            && s.nIdCount !in s.mapInfo
            && Core(h, t)
            && (forall but :: Referenced(s, but) ==> Referenced(t, but + {s.nIdCount}))
            && (forall loose: nat :: Counted(s, loose) ==> Counted(t, loose + 1))
  {
    var t := Create(s, address, source);
    var id := s.nIdCount;
    IdsBelow(h, s);
    forall b: nat, p: nat
      ensures NewSlotOk(h, t, b, p) && TriedSlotOk(h, t, b, p)
    {
      assert NewSlotOk(h, s, b, p) && TriedSlotOk(h, s, b, p);
    }
    forall i | i in t.mapInfo
      ensures InfoOk(h, t, i)
    {
      if i == id {
        NoSlot(h, s, id, address.service);
      } else {
        assert InfoOk(h, s, i);
      }
    }
    assert TriedIds(t) == TriedIds(s);
  }

  /** An id without an entry is in no slot. */
  lemma NoSlot(h: Hashing, s: State, id: int, service: Service)
    requires Core(h, s) && id !in s.mapInfo && id != -1
    ensures Refs(h, s.nKey, s.vvNew, service, id, NEW_BUCKET_COUNT) == 0
  {
    forall b | 0 <= b < NEW_BUCKET_COUNT
      ensures At(s.vvNew, b, Position(h, s.nKey, true, b, service)) != id
    {
      assert NewSlotOk(h, s, b, Position(h, s.nKey, true, b, service));
    }
    NoRefs(h, s.nKey, s.vvNew, service, id, NEW_BUCKET_COUNT);
  }

  /** Entries differ in their place in vRandom only. */
  ghost predicate Shuffled(s: State, t: State) {
    && t == s.(mapInfo := t.mapInfo, vRandom := t.vRandom)
    && t.mapInfo.Keys == s.mapInfo.Keys && |t.vRandom| == |s.vRandom|
    && forall id :: id in s.mapInfo ==> t.mapInfo[id] == s.mapInfo[id].(nRandomPos := t.mapInfo[id].nRandomPos)
  }

  lemma ShuffledCounts(s: State, t: State)
    requires Shuffled(s, t)
    ensures forall but :: Referenced(s, but) ==> Referenced(t, but)
    ensures forall loose :: Counted(s, loose) ==> Counted(t, loose)
  {
    forall id
      ensures id in TriedIds(t) <==> id in TriedIds(s)
    {
      if id in s.mapInfo {
        assert t.mapInfo[id].fInTried == s.mapInfo[id].fInTried;
      }
    }
    assert TriedIds(t) == TriedIds(s);
    assert |t.mapInfo| == |t.mapInfo.Keys| && |s.mapInfo| == |s.mapInfo.Keys|;
  }

  lemma SwapOk(h: Hashing, s: State, i: int, j: int)
    requires Core(h, s) && 0 <= i < |s.vRandom| && 0 <= j < |s.vRandom|
    ensures CanSwap(s, i, j)
    ensures var t := SwapRandom(s, i, j);
            && Core(h, t) && Shuffled(s, t)
            && t.vRandom == s.vRandom[i := s.vRandom[j]][j := s.vRandom[i]]
            && (forall but :: Referenced(s, but) ==> Referenced(t, but))
            && (forall loose :: Counted(s, loose) ==> Counted(t, loose))
  {
    hide Referenced, Counted, Refs, Position, TriedBucket, At;
    var t := SwapRandom(s, i, j);
    if i != j {
      var a, b := s.vRandom[i], s.vRandom[j];
      assert a != b;
      forall id | id in t.mapInfo
        ensures InfoOk(h, t, id)
      {
        assert InfoOk(h, s, id);
      }
      forall b: nat, p: nat
        ensures NewSlotOk(h, t, b, p) && TriedSlotOk(h, t, b, p)
      {
        assert NewSlotOk(h, s, b, p) && TriedSlotOk(h, s, b, p);
      }
      ShuffledCounts(s, t);
    } else {
      assert s.vRandom[i := s.vRandom[j]][j := s.vRandom[i]] == s.vRandom;
    }
  }

  // ---------------------------------------------------------------------------------------
  // Deleting

  /** An entry without references is in no new slot at all. */
  lemma Unreferenced(h: Hashing, s: State, id: int)
    requires Core(h, s) && id in s.mapInfo && s.mapInfo[id].nRefCount == 0
    ensures forall b: nat, p: nat :: At(s.vvNew, b, p) != id
  {
    assert InfoOk(h, s, id);
    forall b: nat, p: nat
      ensures At(s.vvNew, b, p) != id
    {
      assert NewSlotOk(h, s, b, p);
      if At(s.vvNew, b, p) == id {
        RefsCountSlot(h, s.nKey, s.vvNew, s.mapInfo[id].address.service, id, b, NEW_BUCKET_COUNT);
        assert false;
      }
    }
  }

  function WithoutLast(s: State, id: int): State
    requires id in s.mapInfo && s.vRandom != []
  {
    s.(vRandom := s.vRandom[..|s.vRandom| - 1],
       mapAddr := s.mapAddr - {s.mapInfo[id].address.service.ip},
       mapInfo := s.mapInfo - {id},
       nNew := s.nNew - 1)
  }

  lemma WithoutLastOk(h: Hashing, s: State, id: int)
    requires Core(h, s) && id in s.mapInfo && s.mapInfo[id].nRefCount == 0 && !s.mapInfo[id].fInTried
    requires s.vRandom != [] && s.vRandom[|s.vRandom| - 1] == id
    ensures Core(h, WithoutLast(s, id))
  {
    var t := WithoutLast(s, id);
    Unreferenced(h, s, id);
    assert InfoOk(h, s, id);
    forall i | i in t.mapInfo
      ensures InfoOk(h, t, i)
    {
      assert InfoOk(h, s, i);
    }
    forall b: nat, p: nat
      ensures NewSlotOk(h, t, b, p) && TriedSlotOk(h, t, b, p)
    {
      assert NewSlotOk(h, s, b, p) && TriedSlotOk(h, s, b, p);
    }
    forall i | 0 <= i < |t.vRandom|
      ensures t.vRandom[i] in t.mapInfo && t.mapInfo[t.vRandom[i]].nRandomPos == i
    {
      assert t.vRandom[i] == s.vRandom[i];
    }
  }

  lemma WithoutLastCounted(s: State, id: int, loose: nat)
    requires Counted(s, loose) && id in s.mapInfo && !s.mapInfo[id].fInTried && s.vRandom != []
    ensures Counted(WithoutLast(s, id), loose)
  {
    var t := WithoutLast(s, id);
    assert TriedIds(t) == TriedIds(s);
    assert t.mapInfo.Keys == s.mapInfo.Keys - {id};
    assert |t.mapInfo| == |t.mapInfo.Keys| && |s.mapInfo| == |s.mapInfo.Keys|;
  }

  /** Only the entry with that id is gone. */
  ghost predicate Removed(s: State, t: State, id: int) {
    && t.mapInfo.Keys == s.mapInfo.Keys - {id}
    && t.nKey == s.nKey && t.vvNew == s.vvNew && t.vvTried == s.vvTried && t.nIdCount == s.nIdCount
    && forall i :: i in t.mapInfo ==> t.mapInfo[i] == s.mapInfo[i].(nRandomPos := t.mapInfo[i].nRandomPos)
  }

  /** An entry without references can be deleted, and only it goes. */
  lemma DeleteOk(h: Hashing, s: State, id: int)
    requires Core(h, s) && id in s.mapInfo && s.mapInfo[id].nRefCount == 0 && !s.mapInfo[id].fInTried
    ensures CanDelete(s, id)
    ensures var t := Delete(s, id);
            && Core(h, t) && Removed(s, t, id)
            && (forall but :: Referenced(s, but) ==> Referenced(t, but))
            && (forall loose: nat :: Counted(s, loose) ==> Counted(t, loose))
  {
    assert InfoOk(h, s, id);
    var i, last := s.mapInfo[id].nRandomPos, |s.vRandom| - 1;
    SwapOk(h, s, i, last);
    var u := SwapRandom(s, i, last);
    assert u.vRandom[last] == id;
    WithoutLastOk(h, u, id);
    assert Delete(s, id) == WithoutLast(u, id);
    forall loose: nat | Counted(s, loose)
      ensures Counted(Delete(s, id), loose)
    {
      WithoutLastCounted(u, id, loose);
    }
  }

  // ---------------------------------------------------------------------------------------
  // Slots of the new table

  lemma UnslotOk(h: Hashing, s: State, b: nat, p: nat)
    requires Core(h, s) && At(s.vvNew, b, p) != -1
    ensures At(s.vvNew, b, p) in s.mapInfo
    ensures s.mapInfo[At(s.vvNew, b, p)].nRefCount > 0 && !s.mapInfo[At(s.vvNew, b, p)].fInTried
    ensures Core(h, Unslot(s, b, p))
    ensures forall loose: nat :: Counted(s, loose) ==> Counted(Unslot(s, b, p), loose)
  {
    assert NewSlotOk(h, s, b, p);
    var id := At(s.vvNew, b, p);
    var t := Unslot(s, b, p);
    var service := s.mapInfo[id].address.service;
    assert InfoOk(h, s, id);
    RefsCountSlot(h, s.nKey, s.vvNew, service, id, b, NEW_BUCKET_COUNT);
    forall i | i in t.mapInfo
      ensures InfoOk(h, t, i)
    {
      assert InfoOk(h, s, i);
      if i == id {
        RefsPut(h, s.nKey, s.vvNew, service, id, b, -1, NEW_BUCKET_COUNT);
      } else {
        RefsSame(h, s.nKey, s.vvNew, t.vvNew, s.mapInfo[i].address.service, i, NEW_BUCKET_COUNT);
      }
    }
    forall c: nat, q: nat
      ensures NewSlotOk(h, t, c, q) && TriedSlotOk(h, t, c, q)
    {
      assert NewSlotOk(h, s, c, q) && TriedSlotOk(h, s, c, q);
    }
    assert TriedIds(t) == TriedIds(s);
  }

  /** A new slot is empty afterwards; what was in it has one reference less, or is gone if it had only
      that one; nothing else has changed. */
  ghost predicate Cleared(s: State, t: State, b: nat, p: nat) {
    var id := At(s.vvNew, b, p);
    && t.nKey == s.nKey && t.nIdCount == s.nIdCount && t.vvTried == s.vvTried
    && (forall c: nat, q: nat :: At(t.vvNew, c, q) == if c == b && q == p then -1 else At(s.vvNew, c, q))
    && t.mapInfo.Keys == s.mapInfo.Keys - (if id in s.mapInfo && s.mapInfo[id].nRefCount == 1 then {id} else {})
    && forall i :: i in t.mapInfo ==>
         && t.mapInfo[i] == s.mapInfo[i].(nRandomPos := t.mapInfo[i].nRandomPos, nRefCount := t.mapInfo[i].nRefCount)
         && t.mapInfo[i].nRefCount == s.mapInfo[i].nRefCount - (if i == id then 1 else 0)
  }

  /** Clearing a new slot never trips an assertion and keeps everything consistent. */
  lemma ClearNewOk(h: Hashing, s: State, b: nat, p: nat)
    requires Core(h, s) && b < NEW_BUCKET_COUNT && p < BUCKET_SIZE
    ensures CanClear(s, b, p)
    ensures var t := ClearNew(s, b, p);
            && Core(h, t) && Cleared(s, t, b, p)
            && (forall but :: Referenced(s, but) ==> Referenced(t, but))
            && (forall loose: nat :: Counted(s, loose) ==> Counted(t, loose))
  {
    var id := At(s.vvNew, b, p);
    if id == -1 {
      assert -1 !in s.mapInfo by {
        IdsBelow(h, s);
      }
    } else {
      UnslotOk(h, s, b, p);
      if s.mapInfo[id].nRefCount == 1 {
        DeleteOk(h, Unslot(s, b, p), id);
      }
    }
  }

  /** Filling an empty slot, at its hashed position, with an entry that is not tried. */
  lemma SlotOk(h: Hashing, s: State, b: nat, id: int)
    requires Core(h, s) && b < NEW_BUCKET_COUNT && id in s.mapInfo && !s.mapInfo[id].fInTried
    requires s.mapInfo[id].nRefCount < NEW_BUCKETS_PER_ADDRESS
    requires At(s.vvNew, b, Position(h, s.nKey, true, b, s.mapInfo[id].address.service)) == -1
    ensures var t := Slot(s, b, Position(h, s.nKey, true, b, s.mapInfo[id].address.service), id);
            && Core(h, t)
            && (forall but :: Referenced(s, but) ==> Referenced(t, but - {id}))
            && (forall loose: nat :: Counted(s, loose) ==> Counted(t, loose))
  {
    var service := s.mapInfo[id].address.service;
    var t := Slot(s, b, Position(h, s.nKey, true, b, service), id);
    assert InfoOk(h, s, id);
    forall i | i in t.mapInfo
      ensures InfoOk(h, t, i)
    {
      assert InfoOk(h, s, i);
      if i == id {
        RefsPut(h, s.nKey, s.vvNew, service, id, b, id, NEW_BUCKET_COUNT);
      } else {
        RefsSame(h, s.nKey, s.vvNew, t.vvNew, s.mapInfo[i].address.service, i, NEW_BUCKET_COUNT);
      }
    }
    forall c: nat, q: nat
      ensures NewSlotOk(h, t, c, q) && TriedSlotOk(h, t, c, q)
    {
      assert NewSlotOk(h, s, c, q) && TriedSlotOk(h, s, c, q);
    }
    assert TriedIds(t) == TriedIds(s);
    RefsNonNegative(h, s);
  }

  lemma RefsNonNegative(h: Hashing, s: State)
    requires Core(h, s)
    ensures forall id :: id in s.mapInfo ==> 0 <= s.mapInfo[id].nRefCount
  {
    forall id | id in s.mapInfo
      ensures 0 <= s.mapInfo[id].nRefCount
    {
      assert InfoOk(h, s, id);
    }
  }

  // ---------------------------------------------------------------------------------------
  // Moving between the tables

  /** Taking an entry out of the new buckets leaves it without references. */
  lemma WithdrawOk(h: Hashing, s: State, id: int)
    requires Core(h, s) && id in s.mapInfo && !s.mapInfo[id].fInTried
    ensures var t := Withdraw(h, s, id);
            && Core(h, t) && t.mapInfo == s.mapInfo[id := s.mapInfo[id].(nRefCount := 0)]
            && t == s.(mapInfo := t.mapInfo, vvNew := t.vvNew, nNew := t.nNew)
            && (forall but :: Referenced(s, but) ==> Referenced(t, but + {id}))
            && (forall loose: nat :: Counted(s, loose) ==> Counted(t, loose + 1))
  {
    var t := Withdraw(h, s, id);
    var service := s.mapInfo[id].address.service;
    assert InfoOk(h, s, id);
    forall b: nat, p: nat
      ensures At(t.vvNew, b, p) == if At(s.vvNew, b, p) == id then -1 else At(s.vvNew, b, p)
    {
      assert NewSlotOk(h, s, b, p);
    }
    forall i | i in t.mapInfo
      ensures InfoOk(h, t, i)
    {
      assert InfoOk(h, s, i);
      if i == id {
        NoRefs(h, s.nKey, t.vvNew, service, id, NEW_BUCKET_COUNT);
      } else {
        RefsSame(h, s.nKey, s.vvNew, t.vvNew, s.mapInfo[i].address.service, i, NEW_BUCKET_COUNT);
      }
    }
    forall b: nat, p: nat
      ensures NewSlotOk(h, t, b, p) && TriedSlotOk(h, t, b, p)
    {
      assert NewSlotOk(h, s, b, p) && TriedSlotOk(h, s, b, p);
    }
    assert TriedIds(t) == TriedIds(s);
  }

  /** Taking an entry out of the tried table leaves it without references. */
  lemma UntryOk(h: Hashing, s: State, b: nat, p: nat)
    requires Core(h, s) && At(s.vvTried, b, p) != -1
    ensures At(s.vvTried, b, p) in s.mapInfo
    ensures var id := At(s.vvTried, b, p);
            var t := Untry(s, b, p);
            && s.mapInfo[id].fInTried
            && Core(h, t) && t.mapInfo == s.mapInfo[id := s.mapInfo[id].(fInTried := false)]
            && t.mapInfo[id].nRefCount == 0 && At(t.vvTried, b, p) == -1
            && (forall but :: Referenced(s, but) ==> Referenced(t, but + {id}))
            && (forall loose: nat :: Counted(s, loose) ==> Counted(t, loose + 1))
  {
    assert TriedSlotOk(h, s, b, p);
    var id := At(s.vvTried, b, p);
    var t := Untry(s, b, p);
    var service := s.mapInfo[id].address.service;
    assert InfoOk(h, s, id);
    forall c | 0 <= c < NEW_BUCKET_COUNT
      ensures At(s.vvNew, c, Position(h, s.nKey, true, c, service)) != id
    {
      assert NewSlotOk(h, s, c, Position(h, s.nKey, true, c, service));
    }
    NoRefs(h, s.nKey, s.vvNew, service, id, NEW_BUCKET_COUNT);
    forall i | i in t.mapInfo
      ensures InfoOk(h, t, i)
    {
      assert InfoOk(h, s, i);
    }
    forall c: nat, q: nat
      ensures NewSlotOk(h, t, c, q) && TriedSlotOk(h, t, c, q)
    {
      assert NewSlotOk(h, s, c, q) && TriedSlotOk(h, s, c, q);
    }
    assert TriedIds(t) == TriedIds(s) - {id};
  }

  /** An entry has gone home: the tried table is as it was, at most one other entry is lost, and it had
      its only reference there; entries without references are untouched. */
  ghost predicate WentHome(s: State, t: State, id: int)
    requires id in s.mapInfo
  {
    && t.vvTried == s.vvTried && t.nKey == s.nKey && t.nIdCount == s.nIdCount
    && id in t.mapInfo && t.mapInfo.Keys <= s.mapInfo.Keys
    && (forall i, j :: i in s.mapInfo && i !in t.mapInfo && j in s.mapInfo && j !in t.mapInfo ==> i == j)
    && (forall i :: i in s.mapInfo && i !in t.mapInfo ==> s.mapInfo[i].nRefCount == 1)
    && (forall i :: i in t.mapInfo ==>
          t.mapInfo[i] == s.mapInfo[i].(nRandomPos := t.mapInfo[i].nRandomPos, nRefCount := t.mapInfo[i].nRefCount))
    && (forall i :: i in t.mapInfo && i != id && s.mapInfo[i].nRefCount == 0 ==> t.mapInfo[i].nRefCount == 0)
  }

  /** Clearing its home slot leaves room for an entry without references. */
  lemma HomeIsCleared(h: Hashing, s: State, id: int) returns (t: State)
    requires Core(h, s) && id in s.mapInfo && !s.mapInfo[id].fInTried && s.mapInfo[id].nRefCount == 0
    ensures CanGoHome(h, s, id)
    ensures t == ClearNew(s, HomeBucket(h, s, id), HomePosition(h, s, id))
    ensures Core(h, t) && Cleared(s, t, HomeBucket(h, s, id), HomePosition(h, s, id))
    ensures id in t.mapInfo && t.mapInfo[id] == s.mapInfo[id].(nRandomPos := t.mapInfo[id].nRandomPos)
    ensures forall but :: Referenced(s, but) ==> Referenced(t, but)
    ensures forall loose: nat :: Counted(s, loose) ==> Counted(t, loose)
  {
    var b, p := HomeBucket(h, s, id), HomePosition(h, s, id);
    ClearNewOk(h, s, b, p);
    Unreferenced(h, s, id);
    t := ClearNew(s, b, p);
  }

  lemma HomeIsFilled(h: Hashing, s: State, t: State, id: int) returns (u: State)
    requires Core(h, t) && id in t.mapInfo && !t.mapInfo[id].fInTried && t.mapInfo[id].nRefCount == 0
    requires At(t.vvNew, HomeBucket(h, t, id), HomePosition(h, t, id)) == -1
    ensures u == t.(mapInfo := t.mapInfo[id := t.mapInfo[id].(nRefCount := 1)],
                    vvNew := Put(t.vvNew, HomeBucket(h, t, id), HomePosition(h, t, id), id), nNew := t.nNew + 1)
    ensures Core(h, u)
    ensures forall but :: Referenced(t, but) ==> Referenced(u, but - {id})
    ensures forall loose: nat :: Counted(t, loose + 1) ==> Counted(u, loose)
  {
    SlotOk(h, t, HomeBucket(h, t, id), id);
    var v := Slot(t, HomeBucket(h, t, id), HomePosition(h, t, id), id);
    NewCountOnly(h, v, v.nNew + 1);
    u := v.(nNew := v.nNew + 1);
  }

  /** An entry without references finds its home in the new table. */
  lemma GoHomeOk(h: Hashing, s: State, id: int)
    requires Core(h, s) && id in s.mapInfo && !s.mapInfo[id].fInTried && s.mapInfo[id].nRefCount == 0
    ensures CanGoHome(h, s, id)
    ensures var t := GoHome(h, s, id);
            && Core(h, t) && WentHome(s, t, id)
            && (forall but :: Referenced(s, but) ==> Referenced(t, but - {id}))
            && (forall loose: nat :: Counted(s, loose + 1) ==> Counted(t, loose))
  {
    hide Core;
    var t := HomeIsCleared(h, s, id);
    var u := HomeIsFilled(h, s, t, id);
    assert GoHome(h, s, id) == u;
  }

  /** The counter of new entries plays no part in the indexes. */
  lemma NewCountOnly(h: Hashing, s: State, n: int)
    requires Core(h, s)
    ensures Core(h, s.(nNew := n))
  {
    var t := s.(nNew := n);
    forall i | i in t.mapInfo
      ensures InfoOk(h, t, i)
    {
      assert InfoOk(h, s, i);
    }
    forall c: nat, q: nat
      ensures NewSlotOk(h, t, c, q) && TriedSlotOk(h, t, c, q)
    {
      assert NewSlotOk(h, s, c, q) && TriedSlotOk(h, s, c, q);
    }
  }

  /** An entry without references that has succeeded enters its empty place in the tried table. */
  lemma AdmitOk(h: Hashing, s: State, id: int)
    requires Core(h, s) && id in s.mapInfo && !s.mapInfo[id].fInTried
    requires s.mapInfo[id].nRefCount == 0 && s.mapInfo[id].nLastSuccess > 0
    requires var b := TriedBucket(h, s.nKey, s.mapInfo[id].address.service);
             At(s.vvTried, b, Position(h, s.nKey, false, b, s.mapInfo[id].address.service)) == -1
    ensures var b := TriedBucket(h, s.nKey, s.mapInfo[id].address.service);
            var t := Admit(s, b, Position(h, s.nKey, false, b, s.mapInfo[id].address.service), id);
            && Core(h, t)
            && (forall but :: Referenced(s, but) ==> Referenced(t, but - {id}))
            && (forall loose: nat :: Counted(s, loose + 1) ==> Counted(t, loose))
  {
    var b := TriedBucket(h, s.nKey, s.mapInfo[id].address.service);
    var p := Position(h, s.nKey, false, b, s.mapInfo[id].address.service);
    var t := Admit(s, b, p, id);
    Unreferenced(h, s, id);
    assert InfoOk(h, s, id);
    forall i | i in t.mapInfo
      ensures InfoOk(h, t, i)
    {
      assert InfoOk(h, s, i);
    }
    forall c: nat, q: nat
      ensures NewSlotOk(h, t, c, q) && TriedSlotOk(h, t, c, q)
    {
      assert NewSlotOk(h, s, c, q) && TriedSlotOk(h, s, c, q);
    }
    assert TriedIds(t) == TriedIds(s) + {id};
  }
}
