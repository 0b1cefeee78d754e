/** The address manager's tables and the operations on them (src/addrman.cpp, src/addrman.h), as functions
    on the whole state. AddrMan.dfy has the object whose methods make these changes.

    Hashing, random numbers and the clock are parameters. An assertion in the program is a
    precondition here; AddrManInvariant.dfy shows that every one of them holds.
*/
module AddrManState {
  import opened Wrappers

  const NEW_BUCKET_COUNT: nat := 1024
  const TRIED_BUCKET_COUNT: nat := 256
  const BUCKET_SIZE: nat := 64
  const NEW_BUCKETS_PER_ADDRESS: int := 8

  /** CNetAddr. */
  type NetAddr = int

  /** CService: a network address with its port. */
  datatype Service = Service(ip: NetAddr, port: int)

  /** CAddress. */
  datatype Address = Address(service: Service, nServices: bv64, nTime: nat)

  /** CAddrInfo. */
  datatype Info = Info(address: Address, source: NetAddr, nLastSuccess: int, nLastTry: int, nAttempts: int,
                       nRefCount: int, fInTried: bool, nRandomPos: int)

  function NewInfo(address: Address, source: NetAddr): Info {
    Info(address, source, 0, 0, 0, 0, false, -1)
  }

  /** The hashes bucket selection is made of, from the key, the entry and its source or bucket. */
  datatype Hashing = Hashing(triedHash: (int, Service) -> nat,
                             newHash: (int, Service, NetAddr) -> nat,
                             positionHash: (int, bool, nat, Service) -> nat)

  function TriedBucket(h: Hashing, key: int, service: Service): (b: nat)
    ensures b < TRIED_BUCKET_COUNT
  {
    h.triedHash(key, service) % TRIED_BUCKET_COUNT
  }

  function NewBucket(h: Hashing, key: int, service: Service, source: NetAddr): (b: nat)
    ensures b < NEW_BUCKET_COUNT
  {
    h.newHash(key, service, source) % NEW_BUCKET_COUNT
  }

  function Position(h: Hashing, key: int, isNew: bool, bucket: nat, service: Service): (p: nat)
    ensures p < BUCKET_SIZE
  {
    h.positionHash(key, isNew, bucket, service) % BUCKET_SIZE
  }

  // ---------------------------------------------------------------------------------------
  // Bucket tables

  /** vvNew and vvTried: rows of slots holding an id, or -1. */
  type Table = seq<seq<int>>

  predicate Shaped(t: Table, rows: nat) {
    |t| == rows && forall b :: 0 <= b < rows ==> |t[b]| == BUCKET_SIZE
  }

  function At(t: Table, b: nat, p: nat): int {
    if b < |t| && p < |t[b]| then t[b][p] else -1
  }

  function Put(t: Table, b: nat, p: nat, id: int): (r: Table)
    requires b < |t| && p < |t[b]|
    ensures forall rows :: Shaped(t, rows) ==> Shaped(r, rows)
    ensures forall c: nat, q: nat :: At(r, c, q) == if c == b && q == p then id else At(t, c, q)
  {
    t[b := t[b][p := id]]
  }

  function EmptyTable(rows: nat): (t: Table)
    ensures Shaped(t, rows) && forall b: nat, p: nat :: At(t, b, p) == -1
  {
    seq(rows, b => seq(BUCKET_SIZE, p => -1))
  }

  /** Number of the first n new buckets that hold the id at its hashed position. */
  function Refs(h: Hashing, key: int, t: Table, service: Service, id: int, n: nat): nat {
    if n == 0 then 0 else
    Refs(h, key, t, service, id, n - 1) + if At(t, n - 1, Position(h, key, true, n - 1, service)) == id then 1 else 0
  }

  // ---------------------------------------------------------------------------------------
  // The state and its basic operations

  datatype State = State(nKey: int, nIdCount: int, mapInfo: map<int, Info>, mapAddr: map<NetAddr, int>,
                         vRandom: seq<int>, nTried: int, vvTried: Table, nNew: int, vvNew: Table)

  function EmptyState(key: int): State {
    State(key, 0, map[], map[], [], 0, EmptyTable(TRIED_BUCKET_COUNT), 0, EmptyTable(NEW_BUCKET_COUNT))
  }

  function Find(s: State, ip: NetAddr): (r: Option<int>)
    ensures r.Some? ==> r.value in s.mapInfo && ip in s.mapAddr && s.mapAddr[ip] == r.value
  {
    if ip in s.mapAddr && s.mapAddr[ip] in s.mapInfo then Some(s.mapAddr[ip]) else None
  }

  function Create(s: State, address: Address, source: NetAddr): State {
    s.(nIdCount := s.nIdCount + 1,
       mapInfo := s.mapInfo[s.nIdCount := NewInfo(address, source).(nRandomPos := |s.vRandom|)],
       mapAddr := s.mapAddr[address.service.ip := s.nIdCount],
       vRandom := s.vRandom + [s.nIdCount])
  }

  predicate CanSwap(s: State, i: int, j: int) {
    i == j || (0 <= i < |s.vRandom| && 0 <= j < |s.vRandom| && s.vRandom[i] in s.mapInfo && s.vRandom[j] in s.mapInfo)
  }

  function SwapRandom(s: State, i: int, j: int): State
    requires CanSwap(s, i, j)
  {
    if i == j then s else
    var a, b := s.vRandom[i], s.vRandom[j];
    var m := s.mapInfo[a := s.mapInfo[a].(nRandomPos := j)];
    s.(mapInfo := m[b := m[b].(nRandomPos := i)], vRandom := s.vRandom[i := b][j := a])
  }

  predicate CanDelete(s: State, id: int) {
    && id in s.mapInfo && !s.mapInfo[id].fInTried && s.mapInfo[id].nRefCount == 0
    && s.vRandom != [] && CanSwap(s, s.mapInfo[id].nRandomPos, |s.vRandom| - 1)
  }

  function Delete(s: State, id: int): State
    requires CanDelete(s, id)
  {
    var t := SwapRandom(s, s.mapInfo[id].nRandomPos, |s.vRandom| - 1);
    t.(vRandom := t.vRandom[..|t.vRandom| - 1],
       mapAddr := t.mapAddr - {s.mapInfo[id].address.service.ip},
       mapInfo := t.mapInfo - {id},
       nNew := t.nNew - 1)
  }

  /** Taking one reference out of a new slot. */
  function Unslot(s: State, b: nat, p: nat): State
    requires b < |s.vvNew| && p < |s.vvNew[b]| && At(s.vvNew, b, p) in s.mapInfo
  {
    var id := At(s.vvNew, b, p);
    s.(mapInfo := s.mapInfo[id := s.mapInfo[id].(nRefCount := s.mapInfo[id].nRefCount - 1)],
       vvNew := Put(s.vvNew, b, p, -1))
  }

  predicate CanClear(s: State, b: nat, p: nat) {
    && b < |s.vvNew| && p < |s.vvNew[b]|
    && (At(s.vvNew, b, p) != -1 ==>
          && At(s.vvNew, b, p) in s.mapInfo
          && s.mapInfo[At(s.vvNew, b, p)].nRefCount > 0
          && (s.mapInfo[At(s.vvNew, b, p)].nRefCount == 1 ==> CanDelete(Unslot(s, b, p), At(s.vvNew, b, p))))
  }

  function ClearNew(s: State, b: nat, p: nat): State
    requires CanClear(s, b, p)
  {
    var id := At(s.vvNew, b, p);
    if id == -1 then s
    else if s.mapInfo[id].nRefCount == 1 then Delete(Unslot(s, b, p), id)
    else Unslot(s, b, p)
  }

  /** Entering an id into a new slot, with one reference more. */
  function Slot(s: State, b: nat, p: nat, id: int): State
    requires b < |s.vvNew| && p < |s.vvNew[b]| && id in s.mapInfo
  {
    s.(mapInfo := s.mapInfo[id := s.mapInfo[id].(nRefCount := s.mapInfo[id].nRefCount + 1)],
       vvNew := Put(s.vvNew, b, p, id))
  }

  // ---------------------------------------------------------------------------------------
  // MakeTried

  /** The new table without the id in its first n buckets. */
  function Unlisted(h: Hashing, key: int, t: Table, service: Service, id: int, n: nat): (r: Table)
    requires Shaped(t, NEW_BUCKET_COUNT) && n <= NEW_BUCKET_COUNT
    ensures Shaped(r, NEW_BUCKET_COUNT)
    ensures forall b: nat, p: nat :: At(r, b, p) ==
              if b < n && p == Position(h, key, true, b, service) && At(t, b, p) == id then -1 else At(t, b, p)
  {
    if n == 0 then t else
    var r := Unlisted(h, key, t, service, id, n - 1);
    var p := Position(h, key, true, n - 1, service);
    if At(r, n - 1, p) == id then Put(r, n - 1, p, -1) else r
  }

  /** The entry is taken out of all new buckets. */
  function Withdraw(h: Hashing, s: State, id: int): State
    requires id in s.mapInfo && Shaped(s.vvNew, NEW_BUCKET_COUNT)
  {
    var info := s.mapInfo[id];
    var service := info.address.service;
    var refs := Refs(h, s.nKey, s.vvNew, service, id, NEW_BUCKET_COUNT);
    s.(mapInfo := s.mapInfo[id := info.(nRefCount := info.nRefCount - refs)],
       vvNew := Unlisted(h, s.nKey, s.vvNew, service, id, NEW_BUCKET_COUNT),
       nNew := s.nNew - 1)
  }

  /** The entry in a tried slot is taken out of the tried table. */
  function Untry(s: State, b: nat, p: nat): State
    requires b < |s.vvTried| && p < |s.vvTried[b]| && At(s.vvTried, b, p) in s.mapInfo
  {
    var id := At(s.vvTried, b, p);
    s.(mapInfo := s.mapInfo[id := s.mapInfo[id].(fInTried := false)],
       vvTried := Put(s.vvTried, b, p, -1),
       nTried := s.nTried - 1)
  }

  /** The new bucket an entry belongs to by its own source. */
  function HomeBucket(h: Hashing, s: State, id: int): (b: nat)
    requires id in s.mapInfo
    ensures b < NEW_BUCKET_COUNT
  {
    NewBucket(h, s.nKey, s.mapInfo[id].address.service, s.mapInfo[id].source)
  }

  function HomePosition(h: Hashing, s: State, id: int): (p: nat)
    requires id in s.mapInfo
    ensures p < BUCKET_SIZE
  {
    Position(h, s.nKey, true, HomeBucket(h, s, id), s.mapInfo[id].address.service)
  }

  /** An entry without references goes back to its home in the new table, over whatever is there. */
  predicate CanGoHome(h: Hashing, s: State, id: int) {
    && id in s.mapInfo
    && CanClear(s, HomeBucket(h, s, id), HomePosition(h, s, id))
    && id in ClearNew(s, HomeBucket(h, s, id), HomePosition(h, s, id)).mapInfo
    && Shaped(ClearNew(s, HomeBucket(h, s, id), HomePosition(h, s, id)).vvNew, NEW_BUCKET_COUNT)
  }

  function GoHome(h: Hashing, s: State, id: int): State
    requires CanGoHome(h, s, id)
  {
    var b, p := HomeBucket(h, s, id), HomePosition(h, s, id);
    var t := ClearNew(s, b, p);
    t.(mapInfo := t.mapInfo[id := t.mapInfo[id].(nRefCount := 1)],
       vvNew := Put(t.vvNew, b, p, id),
       nNew := t.nNew + 1)
  }

  /** An entry is put into an empty tried slot. */
  function Admit(s: State, b: nat, p: nat, id: int): State
    requires b < |s.vvTried| && p < |s.vvTried[b]| && id in s.mapInfo
  {
    s.(mapInfo := s.mapInfo[id := s.mapInfo[id].(fInTried := true)],
       vvTried := Put(s.vvTried, b, p, id),
       nTried := s.nTried + 1)
  }
}
