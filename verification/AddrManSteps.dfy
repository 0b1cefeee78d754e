/** The public operations of the address manager (Good_, Add_, Attempt_, Connected_, GetAddr_,
    src/addrman.cpp) and what every run of them keeps.
*/
module AddrManSteps {
  import opened Wrappers
  import opened AddrManState
  import opened AddrManInvariant

  const HORIZON: int := 30 * 24 * 60 * 60
  const RETRIES: int := 3
  const MAX_FAILURES: int := 10
  const MIN_FAIL_TIME: int := 7 * 24 * 60 * 60

  /** IsTerrible. */
  predicate IsTerrible(info: Info, now: int) {
    if info.nLastTry != 0 && info.nLastTry >= now - 60 then false
    else if info.address.nTime > now + 10 * 60 then true
    else if info.address.nTime == 0 || now - info.address.nTime > HORIZON then true
    else if info.nLastSuccess == 0 && info.nAttempts >= RETRIES then true
    else now - info.nLastSuccess > MIN_FAIL_TIME && info.nAttempts >= MAX_FAILURES
  }

  // ---------------------------------------------------------------------------------------
  // Good_

  /** MakeTried: out of the new buckets and into the tried slot, whose occupant goes back home. */
  ghost function MakeTried(h: Hashing, s: State, id: int): State
    requires Core(h, s) && id in s.mapInfo && !s.mapInfo[id].fInTried
  {
    WithdrawOk(h, s, id);
    var w := Withdraw(h, s, id);
    var service := s.mapInfo[id].address.service;
    var b := TriedBucket(h, s.nKey, service);
    var p := Position(h, s.nKey, false, b, service);
    if At(w.vvTried, b, p) == -1 then Admit(w, b, p, id)
    else
      UntryOk(h, w, b, p);
      var evicted := At(w.vvTried, b, p);
      var u := Untry(w, b, p);
      GoHomeOk(h, u, evicted);
      Admit(GoHome(h, u, evicted), b, p, id)
  }

  /** The same entry, as far as its place in the tables is not concerned. */
  predicate SameHistory(a: Info, b: Info) {
    && a.address == b.address && a.source == b.source && a.nLastSuccess == b.nLastSuccess
    && a.nLastTry == b.nLastTry && a.nAttempts == b.nAttempts
  }

  /** Two services that hash to the same tried slot. */
  predicate SameTriedSlot(h: Hashing, key: int, a: Service, b: Service) {
    && TriedBucket(h, key, a) == TriedBucket(h, key, b)
    && Position(h, key, false, TriedBucket(h, key, a), a) == Position(h, key, false, TriedBucket(h, key, b), b)
  }

  /** Moving an entry to the tried table loses at most one entry, which was not tried and had a single
      reference. The entry ends up tried; of the others just one from the same slot is tried no more. */
  ghost predicate MadeTried(h: Hashing, s: State, t: State, id: int) {
    && t.nKey == s.nKey && t.nIdCount == s.nIdCount
    && id in t.mapInfo && t.mapInfo[id].fInTried
    && t.mapInfo.Keys <= s.mapInfo.Keys
    && (forall i, j :: i in s.mapInfo && i !in t.mapInfo && j in s.mapInfo && j !in t.mapInfo ==> i == j)
    && (forall i :: i in s.mapInfo && i !in t.mapInfo ==> !s.mapInfo[i].fInTried && s.mapInfo[i].nRefCount == 1)
    && t.mapInfo[id].address == s.mapInfo[id].address
    && (forall i :: i in t.mapInfo && i != id ==> SameHistory(t.mapInfo[i], s.mapInfo[i]))
    && (forall i :: i in t.mapInfo && i != id ==>
          (t.mapInfo[i].fInTried <==>
             && s.mapInfo[i].fInTried
             && (s.mapInfo[id].fInTried
                 || !SameTriedSlot(h, s.nKey, s.mapInfo[i].address.service, s.mapInfo[id].address.service))))
  }

  lemma MakeTriedMoves(h: Hashing, s: State, id: int)
    requires Core(h, s) && id in s.mapInfo && !s.mapInfo[id].fInTried
    ensures var t := MakeTried(h, s, id);
            MadeTried(h, s, t, id) && SameHistory(t.mapInfo[id], s.mapInfo[id])
  {
    TriedPlaces(h, s, s.mapInfo[id].address.service);
    assert Shaped(s.vvTried, TRIED_BUCKET_COUNT);
    hide Core;
    WithdrawOk(h, s, id);
    var w := Withdraw(h, s, id);
    var service := s.mapInfo[id].address.service;
    var b := TriedBucket(h, s.nKey, service);
    var p := Position(h, s.nKey, false, b, service);
    if At(w.vvTried, b, p) != -1 {
      UntryOk(h, w, b, p);
      var evicted := At(w.vvTried, b, p);
      var u := Untry(w, b, p);
      GoHomeOk(h, u, evicted);
      DisplacedMoves(h, s, u, GoHome(h, u, evicted), b, p, id, evicted);
    }
  }

  lemma DisplacedMoves(h: Hashing, s: State, u: State, t: State, b: nat, p: nat, id: int, evicted: int)
    requires id in s.mapInfo && evicted in s.mapInfo && evicted != id && s.mapInfo[evicted].fInTried
    requires !s.mapInfo[id].fInTried && u.nKey == s.nKey && u.nIdCount == s.nIdCount
    requires u.mapInfo == s.mapInfo[id := s.mapInfo[id].(nRefCount := 0)]
                                   [evicted := s.mapInfo[evicted].(fInTried := false)]
    requires WentHome(u, t, evicted) && b < |t.vvTried| && p < |t.vvTried[b]|
    requires forall i :: i in s.mapInfo && s.mapInfo[i].fInTried ==>
               && s.mapInfo[i].nRefCount == 0
               && (i == evicted <==>
                     SameTriedSlot(h, s.nKey, s.mapInfo[i].address.service, s.mapInfo[id].address.service))
    requires u.mapInfo[evicted].nRefCount == 0
    ensures id in t.mapInfo && MadeTried(h, s, Admit(t, b, p, id), id)
    ensures SameHistory(t.mapInfo[id], s.mapInfo[id])
  {
    assert u.mapInfo.Keys == s.mapInfo.Keys;
    var v := Admit(t, b, p, id);
    assert v.mapInfo.Keys == t.mapInfo.Keys;
    assert forall i :: i in s.mapInfo && s.mapInfo[i].fInTried ==> u.mapInfo[i].nRefCount == 0;
  }

  /** A tried entry hashes to a slot just when it is in it. */
  lemma TriedPlaces(h: Hashing, s: State, service: Service)
    requires Core(h, s)
    ensures var b := TriedBucket(h, s.nKey, service);
            var p := Position(h, s.nKey, false, b, service);
            && -1 !in s.mapInfo
            && forall i :: i in s.mapInfo && s.mapInfo[i].fInTried ==>
                 && s.mapInfo[i].nRefCount == 0
                 && (At(s.vvTried, b, p) == i <==> SameTriedSlot(h, s.nKey, s.mapInfo[i].address.service, service))
  {
    IdsBelow(h, s);
    var b := TriedBucket(h, s.nKey, service);
    var p := Position(h, s.nKey, false, b, service);
    assert TriedSlotOk(h, s, b, p);
    forall i | i in s.mapInfo && s.mapInfo[i].fInTried
      ensures s.mapInfo[i].nRefCount == 0
      ensures At(s.vvTried, b, p) == i <==> SameTriedSlot(h, s.nKey, s.mapInfo[i].address.service, service)
    {
      assert InfoOk(h, s, i);
    }
  }

  lemma MakeTriedEmpty(h: Hashing, s: State, id: int)
    requires Consistent(h, s) && id in s.mapInfo && !s.mapInfo[id].fInTried && s.mapInfo[id].nLastSuccess > 0
    requires var b := TriedBucket(h, s.nKey, s.mapInfo[id].address.service);
             At(s.vvTried, b, Position(h, s.nKey, false, b, s.mapInfo[id].address.service)) == -1
    ensures Consistent(h, MakeTried(h, s, id))
  {
    WithdrawOk(h, s, id);
    var w := Withdraw(h, s, id);
    AdmitOk(h, w, id);
    assert Referenced(s, {}) && {} + {id} - {id} == {};
  }

  /** Making room in the tried table: its occupant goes home as a new entry. */
  lemma Displace(h: Hashing, s: State, b: nat, p: nat, id: int) returns (t: State)
    requires Core(h, s) && Referenced(s, {id}) && Counted(s, 1)
    requires id in s.mapInfo && !s.mapInfo[id].fInTried && s.mapInfo[id].nRefCount == 0
    requires At(s.vvTried, b, p) != -1
    ensures At(s.vvTried, b, p) in s.mapInfo && CanGoHome(h, Untry(s, b, p), At(s.vvTried, b, p))
    ensures t == GoHome(h, Untry(s, b, p), At(s.vvTried, b, p))
    ensures Core(h, t) && Referenced(t, {id}) && Counted(t, 1)
    ensures At(t.vvTried, b, p) == -1 && t.nKey == s.nKey
    ensures id in t.mapInfo && t.mapInfo[id] == s.mapInfo[id].(nRandomPos := t.mapInfo[id].nRandomPos)
  {
    hide Core, GoHome;
    UntryOk(h, s, b, p);
    var evicted := At(s.vvTried, b, p);
    var u := Untry(s, b, p);
    assert evicted != id;
    GoHomeOk(h, u, evicted);
    t := GoHome(h, u, evicted);
    assert Referenced(u, {id} + {evicted});
    assert {id} + {evicted} - {evicted} == {id};
    assert Counted(u, 2);
  }

  lemma MakeTriedFull(h: Hashing, s: State, id: int)
    requires Consistent(h, s) && id in s.mapInfo && !s.mapInfo[id].fInTried && s.mapInfo[id].nLastSuccess > 0
    requires var b := TriedBucket(h, s.nKey, s.mapInfo[id].address.service);
             At(s.vvTried, b, Position(h, s.nKey, false, b, s.mapInfo[id].address.service)) != -1
    ensures Consistent(h, MakeTried(h, s, id))
  {
    WithdrawOk(h, s, id);
    var w := Withdraw(h, s, id);
    var service := s.mapInfo[id].address.service;
    var b := TriedBucket(h, s.nKey, service);
    assert Referenced(w, {} + {id}) && {} + {id} == {id};
    assert Counted(w, 0 + 1);
    var v := Displace(h, w, b, Position(h, s.nKey, false, b, service), id);
    AdmitOk(h, v, id);
    assert {id} - {id} == {};
  }

  lemma MakeTriedOk(h: Hashing, s: State, id: int)
    requires Consistent(h, s) && id in s.mapInfo && !s.mapInfo[id].fInTried && s.mapInfo[id].nLastSuccess > 0
    ensures var t := MakeTried(h, s, id);
            Consistent(h, t) && MadeTried(h, s, t, id) && SameHistory(t.mapInfo[id], s.mapInfo[id])
  {
    hide Core, Referenced, Counted, MakeTried;
    var b := TriedBucket(h, s.nKey, s.mapInfo[id].address.service);
    if At(s.vvTried, b, Position(h, s.nKey, false, b, s.mapInfo[id].address.service)) == -1 {
      MakeTriedEmpty(h, s, id);
    } else {
      MakeTriedFull(h, s, id);
    }
    MakeTriedMoves(h, s, id);
  }

  /** The bucket search of Good_ always succeeds: its "something bad happened" exit is not taken. */
  lemma SearchSucceeds(h: Hashing, s: State, id: int) returns (b: nat)
    requires Consistent(h, s) && id in s.mapInfo && !s.mapInfo[id].fInTried
    ensures b < NEW_BUCKET_COUNT
    ensures At(s.vvNew, b, Position(h, s.nKey, true, b, s.mapInfo[id].address.service)) == id
  {
    assert InfoOk(h, s, id);
    b := SomeSlot(h, s.nKey, s.vvNew, s.mapInfo[id].address.service, id, NEW_BUCKET_COUNT);
  }

  /** The statistics Good_ writes. */
  function Succeeded(info: Info, time: int): Info {
    info.(nLastSuccess := time, nLastTry := time, nAttempts := 0)
  }

  /** The entry an operation is about: known under that address, with the same port. */
  function Known(s: State, service: Service): (r: Option<int>)
    ensures r.Some? ==> r.value in s.mapInfo
  {
    var id := Find(s, service.ip);
    if id.Some? && s.mapInfo[id.value].address.service == service then id else None
  }

  /** That is the entry its address maps to, just if the port agrees. */
  lemma KnownIs(h: Hashing, s: State, service: Service)
    requires Core(h, s)
    ensures service.ip in s.mapAddr ==>
              && s.mapAddr[service.ip] in s.mapInfo && s.mapAddr[service.ip] >= 0
              && Known(s, service)
                 == if s.mapInfo[s.mapAddr[service.ip]].address.service == service then Some(s.mapAddr[service.ip])
                    else None
    ensures service.ip !in s.mapAddr ==> Known(s, service) == None
  {
    if service.ip in s.mapAddr {
      assert InfoOk(h, s, s.mapAddr[service.ip]);
    }
  }

  ghost function Good(h: Hashing, s: State, service: Service, time: int): State
    requires Consistent(h, s) && time > 0
  {
    match Known(s, service)
    case None => s
    case Some(id) =>
      var info := Succeeded(s.mapInfo[id], time);
      var t := s.(mapInfo := s.mapInfo[id := info]);
      TouchOk(h, s, id, info);
      if info.fInTried then t else MakeTried(h, t, id)
  }

  /** An entry that was tried within a minute is not terrible. */
  ghost predicate Spared(info: Info, time: int) {
    forall now :: now <= time + 60 ==> !IsTerrible(info, now)
  }

  /** Good_ keeps everything consistent. A known address with the very port is tried afterwards, with a success at
      that time and without failures; any other changes nothing. */
  lemma GoodOk(h: Hashing, s: State, service: Service, time: int)
    requires Consistent(h, s) && time > 0
    ensures var t := Good(h, s, service, time);
            && Consistent(h, t)
            && if service.ip !in s.mapAddr then t == s
               else
                 var id := s.mapAddr[service.ip];
                 && id in s.mapInfo && id in t.mapInfo
                 && if s.mapInfo[id].address.service != service then t == s
                    else
                      && MadeTried(h, s, t, id) && t.mapInfo[id].fInTried
                      && t.mapInfo[id].nLastSuccess == t.mapInfo[id].nLastTry == time
                      && t.mapInfo[id].nAttempts == 0
                      && t.mapInfo[id].address == s.mapInfo[id].address
                      && t.mapInfo[id].source == s.mapInfo[id].source
  {
    hide Core, Referenced, Counted, MakeTried;
    KnownIs(h, s, service);
    match Known(s, service)
    case None =>
    case Some(id) =>
      var info := Succeeded(s.mapInfo[id], time);
      var t := s.(mapInfo := s.mapInfo[id := info]);
      TouchOk(h, s, id, info);
      if !info.fInTried {
        MakeTriedOk(h, t, id);
      }
  }

  // ---------------------------------------------------------------------------------------
  // Attempt_ and Connected_

  function Attempt(s: State, service: Service, time: int): State {
    match Known(s, service)
    case None => s
    case Some(id) =>
      var info := s.mapInfo[id];
      s.(mapInfo := s.mapInfo[id := info.(nLastTry := time, nAttempts := info.nAttempts + 1)])
  }

  function Connected(s: State, service: Service, time: int): State {
    match Known(s, service)
    case None => s
    case Some(id) =>
      var info := s.mapInfo[id];
      if time - info.address.nTime > 20 * 60
      then s.(mapInfo := s.mapInfo[id := info.(address := info.address.(nTime := time))])
      else s
  }

  /** Only the entry with that id has changed, and not its place in the tables. */
  ghost predicate OnlyTouched(s: State, t: State, id: int) {
    && t == s.(mapInfo := t.mapInfo) && t.mapInfo.Keys == s.mapInfo.Keys && id in s.mapInfo
    && SameIndexed(s.mapInfo[id], t.mapInfo[id])
    && forall i :: i in s.mapInfo && i != id ==> t.mapInfo[i] == s.mapInfo[i]
  }

  lemma TimesOk(h: Hashing, s: State, id: int)
    requires Core(h, s) && id in s.mapInfo
    ensures var info := s.mapInfo[id];
            0 <= info.nLastTry && 0 <= info.nLastSuccess && (info.fInTried ==> info.nLastSuccess != 0)
  {
    assert InfoOk(h, s, id);
  }

  /** Attempt_ counts one more failure of the address and spares it for a minute. */
  lemma AttemptOk(h: Hashing, s: State, service: Service, time: int)
    requires Consistent(h, s) && time >= 0
    ensures var t := Attempt(s, service, time);
            && Consistent(h, t)
            && if service.ip !in s.mapAddr then t == s
               else
                 var id := s.mapAddr[service.ip];
                 && id in s.mapInfo
                 && if s.mapInfo[id].address.service != service then t == s
                    else
                      && OnlyTouched(s, t, id) && t.mapInfo[id].address == s.mapInfo[id].address
                      && t.mapInfo[id].nLastTry == time
                      && t.mapInfo[id].nAttempts == s.mapInfo[id].nAttempts + 1
                      && t.mapInfo[id].nLastSuccess == s.mapInfo[id].nLastSuccess
                      && (time > 0 ==> Spared(t.mapInfo[id], time))
  {
    hide Core, Referenced, Counted;
    KnownIs(h, s, service);
    match Known(s, service)
    case None =>
    case Some(id) =>
      TimesOk(h, s, id);
      TouchOk(h, s, id, s.mapInfo[id].(nLastTry := time, nAttempts := s.mapInfo[id].nAttempts + 1));
  }

  /** Connected_ makes the time of the address at most twenty minutes older than the connection, never older
      than it was, and leaves a time alone that is recent enough. */
  lemma ConnectedOk(h: Hashing, s: State, service: Service, time: int)
    requires Consistent(h, s)
    ensures var t := Connected(s, service, time);
            && Consistent(h, t)
            && if service.ip !in s.mapAddr then t == s
               else
                 var id := s.mapAddr[service.ip];
                 && id in s.mapInfo
                 && if s.mapInfo[id].address.service != service then t == s
                    else
                      && OnlyTouched(s, t, id)
                      && var before, after := s.mapInfo[id].address.nTime, t.mapInfo[id].address.nTime;
                         && t.mapInfo[id] == s.mapInfo[id].(address := s.mapInfo[id].address.(nTime := after))
                         && before <= after && time - 20 * 60 <= after
                         && (after != before ==> after == time && before < time - 20 * 60)
  {
    KnownIs(h, s, service);
    match Known(s, service)
    case None =>
    case Some(id) =>
      var info := s.mapInfo[id];
      assert InfoOk(h, s, id);
      if time - info.address.nTime > 20 * 60 {
        TouchOk(h, s, id, info.(address := info.address.(nTime := time)));
      }
  }

  // ---------------------------------------------------------------------------------------
  // Add_

  function Pow2(n: nat): (r: nat)
    ensures r >= 1
  {
    if n == 0 then 1 else 2 * Pow2(n - 1)
  }

  /** The entry Add_ meets may be overwritten: it is terrible, or can spare the reference to one that
      has none. */
  predicate Overwritable(existing: Info, info: Info, now: int) {
    IsTerrible(existing, now) || (existing.nRefCount > 1 && info.nRefCount == 0)
  }

  /** The end of Add_: the entry takes the new slot its source selects, if that is free or its occupant
      may be overwritten; an entry left without any reference is deleted. */
  ghost function Insert(h: Hashing, s: State, id: int, source: NetAddr, now: int): State
    requires Core(h, s) && id in s.mapInfo && !s.mapInfo[id].fInTried
  {
    var service := s.mapInfo[id].address.service;
    var b := NewBucket(h, s.nKey, service, source);
    var p := Position(h, s.nKey, true, b, service);
    var existing := At(s.vvNew, b, p);
    if existing == id then s
    else if existing == -1 || (existing in s.mapInfo && Overwritable(s.mapInfo[existing], s.mapInfo[id], now)) then
      ClearNewOk(h, s, b, p);
      Slot(ClearNew(s, b, p), b, p, id)
    else if s.mapInfo[id].nRefCount == 0 then
      DeleteOk(h, s, id);
      Delete(s, id)
    else s
  }

  /** The time a known entry is given when its address is heard of again. */
  function Refreshed(info: Info, address: Address, penalty: int, now: int): Info {
    var online := now - address.nTime < 24 * 60 * 60;
    var interval := if online then 60 * 60 else 24 * 60 * 60;
    var time := info.address.nTime;
    var newer := address.nTime != 0 && (time == 0 || time < address.nTime - interval - penalty);
    info.(address := info.address.(nTime := if newer then Penalized(address.nTime, penalty) else time,
                                   nServices := info.address.nServices | address.nServices))
  }

  /** max(0, nTime - nTimePenalty). */
  function Penalized(time: nat, penalty: int): nat {
    if time - penalty < 0 then 0 else time - penalty
  }

  /** Hearing of an address again leaves its time at most the update interval and the penalty behind the time heard,
      an hour for addresses heard of within a day and a day for others. It moves the time only if that was not so
      already, or there was none, and then to the time heard less the penalty. So it never makes it older. */
  lemma RefreshedNewer(info: Info, address: Address, penalty: int, now: int)
    requires penalty >= 0
    ensures var before, heard := info.address.nTime, address.nTime;
            var after := Refreshed(info, address, penalty, now).address.nTime;
            var interval := if now - heard < 24 * 60 * 60 then 60 * 60 else 24 * 60 * 60;
            && before <= after
            && (heard == 0 ==> after == before)
            && (heard != 0 ==> after >= heard - interval - penalty && (before == 0 ==> after >= heard - penalty))
            && (after != before ==>
                  && (after == heard - penalty || (after == 0 && heard < penalty))
                  && (before == 0 || before < heard - interval - penalty))
  {
  }

  lemma OrKeeps(a: bv64, b: bv64)
    ensures (a | b) & a == a && (a | b) & b == b
  {
  }

  /** Services heard of are added, and no others. */
  lemma ServicesJoined(info: Info, address: Address, penalty: int, now: int)
    ensures var after := Refreshed(info, address, penalty, now).address;
            after.nServices == info.address.nServices | address.nServices && after.service == info.address.service
  {
  }

  /** No services are lost. */
  lemma RefreshedServices(info: Info, address: Address, penalty: int, now: int)
    ensures var after := Refreshed(info, address, penalty, now).address;
            && after.nServices & info.address.nServices == info.address.nServices
            && after.nServices & address.nServices == address.nServices
            && after.service == info.address.service
  {
    hide Refreshed;
    ServicesJoined(info, address, penalty, now);
    OrKeeps(info.address.nServices, address.nServices);
  }

  /** Whether Add_ goes on to give a known entry another reference. */
  predicate WorthAnother(info: Info, address: Address, random: nat) {
    && address.nTime != 0 && (info.address.nTime == 0 || address.nTime > info.address.nTime)
    && !info.fInTried
    && info.nRefCount != NEW_BUCKETS_PER_ADDRESS
    && (info.nRefCount > 0 ==> random % Pow2(info.nRefCount) == 0)
  }

  /** Add_: the state afterwards, and whether the address was unknown. `now` is the adjusted time,
      `later` the time IsTerrible reads, `random` what RandomInt draws from. */
  ghost function Add(h: Hashing, s: State, routable: bool, address: Address, source: NetAddr, penalty: int,
                     now: int, later: int, random: nat): (r: (State, bool))
    requires Consistent(h, s) && 0 <= s.nIdCount
  {
    if !routable then (s, false)
    else match Find(s, address.service.ip)
    case Some(id) =>
      var info := Refreshed(s.mapInfo[id], address, penalty, now);
      var t := s.(mapInfo := s.mapInfo[id := info]);
      RefreshOk(h, s, id, info);
      if WorthAnother(info, address, random) then (Insert(h, t, id, source, later), false) else (t, false)
    case None =>
      UnknownAddress(h, s, address.service.ip);
      CreateOk(h, s, address, source);
      AddNewOk(h, s, address, source, penalty);
      (Insert(h, AddNew(s, address, source, penalty), s.nIdCount, source, later), true)
  }

  /** An address that is not found has no entry. */
  lemma UnknownAddress(h: Hashing, s: State, ip: NetAddr)
    requires Core(h, s) && Find(s, ip) == None
    ensures ip !in s.mapAddr
  {
  }

  lemma RefreshOk(h: Hashing, s: State, id: int, info: Info)
    requires Consistent(h, s) && id in s.mapInfo
    requires info == s.mapInfo[id].(address := info.address) && info.address.service == s.mapInfo[id].address.service
    ensures Consistent(h, s.(mapInfo := s.mapInfo[id := info]))
  {
    assert InfoOk(h, s, id);
    TouchOk(h, s, id, info);
  }

  /** The state after Add_ has created an entry and counted it as new. */
  function AddNew(s: State, address: Address, source: NetAddr, penalty: int): State {
    var t := Create(s, address, source);
    var info := t.mapInfo[s.nIdCount];
    t.(mapInfo := t.mapInfo[s.nIdCount := info.(address := info.address.(nTime := Penalized(address.nTime, penalty)))],
       nNew := t.nNew + 1)
  }

  /** A created entry with another time, before it is counted. */
  lemma CreatedOk(h: Hashing, s: State, address: Address, source: NetAddr, info: Info) returns (u: State)
    requires Consistent(h, s) && address.service.ip !in s.mapAddr && 0 <= s.nIdCount
    requires s.nIdCount in Create(s, address, source).mapInfo
    requires var created := Create(s, address, source).mapInfo[s.nIdCount];
             info == created.(address := info.address) && info.address.service == address.service
    ensures s.nIdCount !in s.mapInfo
    ensures var t := Create(s, address, source); u == t.(mapInfo := t.mapInfo[s.nIdCount := info])
    ensures Core(h, u) && Referenced(u, {s.nIdCount}) && Counted(u, 1)
  {
    CreateOk(h, s, address, source);
    var t := Create(s, address, source);
    assert Referenced(t, {} + {s.nIdCount}) && {} + {s.nIdCount} == {s.nIdCount};
    assert Counted(t, 0 + 1);
    TouchOk(h, t, s.nIdCount, info);
    u := t.(mapInfo := t.mapInfo[s.nIdCount := info]);
  }

  lemma AddNewOk(h: Hashing, s: State, address: Address, source: NetAddr, penalty: int)
    requires Consistent(h, s) && address.service.ip !in s.mapAddr && 0 <= s.nIdCount
    ensures var t := AddNew(s, address, source, penalty);
            && s.nIdCount !in s.mapInfo
            && Core(h, t) && Referenced(t, {s.nIdCount}) && Counted(t, 0)
            && t.mapInfo.Keys == s.mapInfo.Keys + {s.nIdCount}
            && (forall i :: i in s.mapInfo ==> t.mapInfo[i] == s.mapInfo[i])
            && t.mapInfo[s.nIdCount].address.service == address.service
            && !t.mapInfo[s.nIdCount].fInTried && t.mapInfo[s.nIdCount].nRefCount == 0
  {
    hide Core;
    var created := Create(s, address, source).mapInfo[s.nIdCount];
    var info := created.(address := created.address.(nTime := Penalized(address.nTime, penalty)));
    var u := CreatedOk(h, s, address, source, info);
    NewCountOnly(h, u, u.nNew + 1);
    assert AddNew(s, address, source, penalty) == u.(nNew := u.nNew + 1);
  }

  /** Inserting makes every entry referenced again; at most one entry is lost, and none that was tried. */
  lemma InsertOk(h: Hashing, s: State, id: int, source: NetAddr, now: int)
    requires Core(h, s) && Referenced(s, {id}) && Counted(s, 0)
    requires id in s.mapInfo && !s.mapInfo[id].fInTried && s.mapInfo[id].nRefCount < NEW_BUCKETS_PER_ADDRESS
    ensures var t := Insert(h, s, id, source, now);
            Consistent(h, t) && Inserted(s, t)
  {
    var service := s.mapInfo[id].address.service;
    var b := NewBucket(h, s.nKey, service, source);
    var p := Position(h, s.nKey, true, b, service);
    var existing := At(s.vvNew, b, p);
    assert NewSlotOk(h, s, b, p);
    assert InfoOk(h, s, id);
    assert {id} - {id} == {};
    if existing == id {
      RefsCountSlot(h, s.nKey, s.vvNew, service, id, b, NEW_BUCKET_COUNT);
    } else if existing == -1 || Overwritable(s.mapInfo[existing], s.mapInfo[id], now) {
      InsertOver(h, s, id, b);
    } else if s.mapInfo[id].nRefCount == 0 {
      DeleteOk(h, s, id);
      assert Referenced(Delete(s, id), {id});
    }
  }

  /** No entry appears, at most one disappears, and the tried ones stay as they are. */
  ghost predicate Inserted(s: State, t: State) {
    && t.nKey == s.nKey && t.nIdCount == s.nIdCount && t.mapInfo.Keys <= s.mapInfo.Keys
    && (forall i, j :: i in s.mapInfo && i !in t.mapInfo && j in s.mapInfo && j !in t.mapInfo ==> i == j)
    && (forall i :: i in s.mapInfo && s.mapInfo[i].fInTried ==> i in t.mapInfo)
    && (forall i :: i in t.mapInfo ==>
          t.mapInfo[i] == s.mapInfo[i].(nRandomPos := t.mapInfo[i].nRandomPos, nRefCount := t.mapInfo[i].nRefCount))
  }

  lemma NewSlotNotTried(h: Hashing, s: State, b: nat, p: nat)
    requires Core(h, s)
    ensures At(s.vvNew, b, p) in s.mapInfo ==> At(s.vvNew, b, p) == -1 || !s.mapInfo[At(s.vvNew, b, p)].fInTried
    ensures -1 !in s.mapInfo
  {
    IdsBelow(h, s);
    assert NewSlotOk(h, s, b, p);
  }

  lemma TableShape(h: Hashing, s: State, b: nat, p: nat)
    requires Core(h, s) && b < NEW_BUCKET_COUNT && p < BUCKET_SIZE
    ensures b < |s.vvNew| && p < |s.vvNew[b]|
  {
  }

  lemma InsertOver(h: Hashing, s: State, id: int, b: nat)
    requires Core(h, s) && Referenced(s, {id}) && Counted(s, 0) && b < NEW_BUCKET_COUNT
    requires id in s.mapInfo && !s.mapInfo[id].fInTried && s.mapInfo[id].nRefCount < NEW_BUCKETS_PER_ADDRESS
    requires At(s.vvNew, b, Position(h, s.nKey, true, b, s.mapInfo[id].address.service)) != id
    ensures var p := Position(h, s.nKey, true, b, s.mapInfo[id].address.service);
            && CanClear(s, b, p) && Core(h, ClearNew(s, b, p)) && id in ClearNew(s, b, p).mapInfo
            && b < |ClearNew(s, b, p).vvNew| && p < |ClearNew(s, b, p).vvNew[b]|
            && Consistent(h, Slot(ClearNew(s, b, p), b, p, id))
            && Inserted(s, Slot(ClearNew(s, b, p), b, p, id))
  {
    hide Core, ClearNew, Referenced, Counted, CanClear, Slot;
    var p := Position(h, s.nKey, true, b, s.mapInfo[id].address.service);
    NewSlotNotTried(h, s, b, p);
    ClearNewOk(h, s, b, p);
    var t := ClearNew(s, b, p);
    TableShape(h, t, b, p);
    SlotKeeps(h, t, b, id);
    InsertedOver(s, t, b, p, id);
  }

  lemma SlotKeeps(h: Hashing, t: State, b: nat, id: int)
    requires Core(h, t) && Referenced(t, {id}) && Counted(t, 0) && b < NEW_BUCKET_COUNT
    requires id in t.mapInfo && !t.mapInfo[id].fInTried && t.mapInfo[id].nRefCount < NEW_BUCKETS_PER_ADDRESS
    requires At(t.vvNew, b, Position(h, t.nKey, true, b, t.mapInfo[id].address.service)) == -1
    ensures Consistent(h, Slot(t, b, Position(h, t.nKey, true, b, t.mapInfo[id].address.service), id))
  {
    SlotOk(h, t, b, id);
    assert {id} - {id} == {};
  }

  lemma InsertedOver(s: State, t: State, b: nat, p: nat, id: int)
    requires Cleared(s, t, b, p) && b < |t.vvNew| && p < |t.vvNew[b]| && id in t.mapInfo
    requires At(s.vvNew, b, p) in s.mapInfo ==> !s.mapInfo[At(s.vvNew, b, p)].fInTried
    ensures Inserted(s, Slot(t, b, p, id))
  {
  }

  /** What Add_ promises: consistency; the set of known addresses grows at most by the one added and
      loses at most one other, which was not tried; true is returned for unknown addresses only. */
  lemma AddOk(h: Hashing, s: State, routable: bool, address: Address, source: NetAddr, penalty: int,
              now: int, later: int, random: nat)
    requires Consistent(h, s) && 0 <= s.nIdCount
    ensures var (t, isNew) := Add(h, s, routable, address, source, penalty, now, later, random);
            && Consistent(h, t) && t.nKey == s.nKey && t.nIdCount == s.nIdCount + (if isNew then 1 else 0)
            && (isNew <==> routable && address.service.ip !in s.mapAddr)
            && t.mapInfo.Keys <= s.mapInfo.Keys + (if isNew then {s.nIdCount} else {})
            && (forall i :: i in s.mapInfo && s.mapInfo[i].fInTried ==> i in t.mapInfo)
            && (forall i :: i in t.mapInfo && i in s.mapInfo ==>
                  t.mapInfo[i].address.service == s.mapInfo[i].address.service)
  {
    hide Core;
    if routable {
      match Find(s, address.service.ip)
      case Some(id) =>
        var info := Refreshed(s.mapInfo[id], address, penalty, now);
        var t := s.(mapInfo := s.mapInfo[id := info]);
        RefreshOk(h, s, id, info);
        if WorthAnother(info, address, random) {
          InsertAgain(h, t, id, source, later);
        }
      case None =>
        UnknownAddress(h, s, address.service.ip);
        AddNewOk(h, s, address, source, penalty);
        InsertOk(h, AddNew(s, address, source, penalty), s.nIdCount, source, later);
    }
  }

  /** A known entry is given another reference. */
  lemma InsertAgain(h: Hashing, s: State, id: int, source: NetAddr, now: int)
    requires Consistent(h, s) && id in s.mapInfo && !s.mapInfo[id].fInTried
    requires s.mapInfo[id].nRefCount != NEW_BUCKETS_PER_ADDRESS
    ensures var t := Insert(h, s, id, source, now);
            Consistent(h, t) && Inserted(s, t)
  {
    assert InfoOk(h, s, id);
    assert Referenced(s, {id});
    InsertOk(h, s, id, source, now);
  }

  /** The new slot an unknown address selects is free, or its occupant can be overwritten. */
  predicate Room(h: Hashing, s: State, service: Service, source: NetAddr, now: int) {
    var b := NewBucket(h, s.nKey, service, source);
    var existing := At(s.vvNew, b, Position(h, s.nKey, true, b, service));
    existing == -1
    || (existing in s.mapInfo && (IsTerrible(s.mapInfo[existing], now) || s.mapInfo[existing].nRefCount > 1))
  }

  /** Add_ stores an unknown address just when there is room, with one reference, from its slot. */
  lemma AddStores(h: Hashing, s: State, address: Address, source: NetAddr, penalty: int,
                  now: int, later: int, random: nat)
    requires Consistent(h, s) && 0 <= s.nIdCount && address.service.ip !in s.mapAddr
    ensures var (t, isNew) := Add(h, s, true, address, source, penalty, now, later, random);
            && isNew && (address.service.ip in t.mapAddr <==> Room(h, s, address.service, source, later))
            && (Room(h, s, address.service, source, later) ==> Stored(h, t, s.nIdCount, address, source, penalty))
  {
    AddOk(h, s, true, address, source, penalty, now, later, random);
    AddNewOk(h, s, address, source, penalty);
    InsertNew(h, s, AddNew(s, address, source, penalty), address, source, penalty, later);
  }

  /** An entry has its address, with the penalty on its time, no history, and one reference, at its slot for the
      source. */
  predicate Stored(h: Hashing, t: State, id: int, address: Address, source: NetAddr, penalty: int) {
    var b := NewBucket(h, t.nKey, address.service, source);
    && id in t.mapInfo && 0 <= t.mapInfo[id].nRandomPos < |t.vRandom|
    && t.mapInfo[id] == Info(address.(nTime := if address.nTime < penalty then 0 else address.nTime - penalty),
                             source, 0, 0, 0, 1, false, t.mapInfo[id].nRandomPos)
    && At(t.vvNew, b, Position(h, t.nKey, true, b, address.service)) == id
  }

  /** Where the slot is free or may be overwritten, Insert puts the entry there, with a reference more. */
  lemma InsertPlaces(h: Hashing, s: State, id: int, source: NetAddr, now: int)
    requires Core(h, s) && id in s.mapInfo && !s.mapInfo[id].fInTried
    requires var b := NewBucket(h, s.nKey, s.mapInfo[id].address.service, source);
             var existing := At(s.vvNew, b, Position(h, s.nKey, true, b, s.mapInfo[id].address.service));
             && existing != id
             && (existing == -1 || (existing in s.mapInfo && Overwritable(s.mapInfo[existing], s.mapInfo[id], now)))
    ensures var b := NewBucket(h, s.nKey, s.mapInfo[id].address.service, source);
            var p := Position(h, s.nKey, true, b, s.mapInfo[id].address.service);
            var t := Insert(h, s, id, source, now);
            && t.nKey == s.nKey && id in t.mapInfo
            && t.mapInfo[id] == s.mapInfo[id].(nRefCount := s.mapInfo[id].nRefCount + 1,
                                               nRandomPos := t.mapInfo[id].nRandomPos)
            && (forall c: nat, q: nat :: At(t.vvNew, c, q) == if c == b && q == p then id else At(s.vvNew, c, q))
  {
    hide Core, ClearNew, CanClear, Referenced, Counted, IsTerrible, Delete, Put, At;
    var b := NewBucket(h, s.nKey, s.mapInfo[id].address.service, source);
    var p := Position(h, s.nKey, true, b, s.mapInfo[id].address.service);
    ClearNewOk(h, s, b, p);
  }

  /** Where it may not, an entry without references goes. */
  lemma InsertDrops(h: Hashing, s: State, id: int, source: NetAddr, now: int)
    requires Core(h, s) && id in s.mapInfo && !s.mapInfo[id].fInTried && s.mapInfo[id].nRefCount == 0
    requires var b := NewBucket(h, s.nKey, s.mapInfo[id].address.service, source);
             var existing := At(s.vvNew, b, Position(h, s.nKey, true, b, s.mapInfo[id].address.service));
             && existing != id && existing != -1
             && !(existing in s.mapInfo && Overwritable(s.mapInfo[existing], s.mapInfo[id], now))
    ensures var t := Insert(h, s, id, source, now);
            s.mapInfo[id].address.service.ip !in t.mapAddr
  {
    hide Core, ClearNew, CanClear, Referenced, Counted, IsTerrible, Delete, Put, At, Position, NewBucket;
    DeleteOk(h, s, id);
    NoAddress(h, s, Delete(s, id), id);
  }

  /** The address of an entry that is gone is unknown. */
  lemma NoAddress(h: Hashing, s: State, t: State, id: int)
    requires Core(h, s) && Core(h, t) && Removed(s, t, id) && id in s.mapInfo
    ensures s.mapInfo[id].address.service.ip !in t.mapAddr
  {
    var ip := s.mapInfo[id].address.service.ip;
    assert InfoOk(h, s, id);
    forall i | i in t.mapInfo
      ensures t.mapInfo[i].address.service.ip != ip
    {
      assert InfoOk(h, s, i);
    }
  }

  lemma AddressKnown(h: Hashing, s: State, id: int)
    requires Core(h, s) && id in s.mapInfo
    ensures 0 <= s.mapInfo[id].nRandomPos < |s.vRandom|
    ensures s.mapInfo[id].address.service.ip in s.mapAddr
    ensures s.mapInfo[id].nRefCount <= NEW_BUCKETS_PER_ADDRESS
  {
    assert InfoOk(h, s, id);
  }

  lemma InsertNew(h: Hashing, s: State, u: State, address: Address, source: NetAddr, penalty: int, later: int)
    requires Core(h, s) && address.service.ip !in s.mapAddr && s.nIdCount !in s.mapInfo && 0 <= s.nIdCount
    requires u == AddNew(s, address, source, penalty) && Core(h, u)
    requires Consistent(h, Insert(h, u, s.nIdCount, source, later))
    ensures var t := Insert(h, u, s.nIdCount, source, later);
            && (address.service.ip in t.mapAddr <==> Room(h, s, address.service, source, later))
            && (Room(h, s, address.service, source, later) ==> Stored(h, t, s.nIdCount, address, source, penalty))
  {
    hide Core, Insert, At, IsTerrible, Referenced, Counted, Position, NewBucket;
    var id := s.nIdCount;
    var b := NewBucket(h, s.nKey, address.service, source);
    NotInSlot(h, s, b, Position(h, s.nKey, true, b, address.service), id);
    var t := Insert(h, u, id, source, later);
    if Room(h, s, address.service, source, later) {
      InsertPlaces(h, u, id, source, later);
      AddressKnown(h, t, id);
    } else {
      InsertDrops(h, u, id, source, later);
    }
  }

  lemma NotInSlot(h: Hashing, s: State, b: nat, p: nat, id: int)
    requires Core(h, s) && id !in s.mapInfo && id != -1
    ensures At(s.vvNew, b, p) != id
    ensures At(s.vvNew, b, p) != -1 ==> At(s.vvNew, b, p) in s.mapInfo
  {
    assert NewSlotOk(h, s, b, p);
  }

  /** What a known address gets from Insert: a reference more, in the slot its source selects, if it was not
      there yet and the slot is free or can be overwritten; otherwise nothing changes. */
  lemma InsertAgainGives(h: Hashing, s: State, id: int, source: NetAddr, now: int)
    requires Consistent(h, s) && id in s.mapInfo && !s.mapInfo[id].fInTried
    requires s.mapInfo[id].nRefCount != NEW_BUCKETS_PER_ADDRESS
    ensures var service := s.mapInfo[id].address.service;
            var b := NewBucket(h, s.nKey, service, source);
            var p := Position(h, s.nKey, true, b, service);
            var existing := At(s.vvNew, b, p);
            var t := Insert(h, s, id, source, now);
            if existing != id && (existing == -1 || (existing in s.mapInfo && IsTerrible(s.mapInfo[existing], now)))
            then
              && id in t.mapInfo && t.mapInfo[id].nRefCount == s.mapInfo[id].nRefCount + 1
              && (forall c: nat, q: nat :: At(t.vvNew, c, q) == if c == b && q == p then id else At(s.vvNew, c, q))
            else t == s
  {
    hide Core, At, IsTerrible, Counted, Referenced, Overwritable, Position, NewBucket, ClearNew, Delete, Slot, Insert;
    var b := NewBucket(h, s.nKey, s.mapInfo[id].address.service, source);
    var existing := At(s.vvNew, b, Position(h, s.nKey, true, b, s.mapInfo[id].address.service));
    ReferencedOnce(s, id);
    TerribleGoes(s, existing, s.mapInfo[id], now);
    if existing != id && (existing == -1 || (existing in s.mapInfo && IsTerrible(s.mapInfo[existing], now))) {
      InsertPlaces(h, s, id, source, now);
    } else {
      InsertStays(h, s, id, source, now);
    }
  }

  /** The slot that a source selects for an entry is not taken, or only by another entry that is terrible. */
  ghost predicate FreeFor(h: Hashing, s: State, id: int, service: Service, source: NetAddr, now: int) {
    var b := NewBucket(h, s.nKey, service, source);
    var existing := At(s.vvNew, b, Position(h, s.nKey, true, b, service));
    existing != id && (existing == -1 || (existing in s.mapInfo && IsTerrible(s.mapInfo[existing], now)))
  }

  /** A known entry keeps its history, and gets another reference just if the time heard is later than what it has
      then, it is not tried and in less than eight buckets, the chance of one in two to the number of these falls that
      way, and the slot is free for it. */
  ghost predicate HeardAgain(h: Hashing, s: State, id: int, after: Info, address: Address, source: NetAddr,
                             later: int, random: nat)
    requires id in s.mapInfo
  {
    var before := s.mapInfo[id];
    && after == before.(address := after.address, nRefCount := after.nRefCount, nRandomPos := after.nRandomPos)
    && 0 <= before.nRefCount <= NEW_BUCKETS_PER_ADDRESS
    && after.nRefCount
       == before.nRefCount
          + if && address.nTime > after.address.nTime && !before.fInTried
               && before.nRefCount < NEW_BUCKETS_PER_ADDRESS
               && random % [1, 2, 4, 8, 16, 32, 64, 128][before.nRefCount] == 0
               && FreeFor(h, s, id, before.address.service, source, later)
            then 1 else 0
  }

  /** What Add_ does for an address that is known. */
  lemma AddKnown(h: Hashing, s: State, address: Address, source: NetAddr, penalty: int, now: int, later: int,
                 random: nat)
    requires Consistent(h, s) && 0 <= s.nIdCount && address.service.ip in s.mapAddr
    ensures var (t, isNew) := Add(h, s, true, address, source, penalty, now, later, random);
            var id := s.mapAddr[address.service.ip];
            && !isNew && id in s.mapInfo && id in t.mapInfo
            && t.mapInfo[id].address == Refreshed(s.mapInfo[id], address, penalty, now).address
            && HeardAgain(h, s, id, t.mapInfo[id], address, source, later, random)
  {
    hide Core, Insert, At, IsTerrible, Counted, Position, NewBucket, Refreshed, WorthAnother, FreeFor;
    KnownIs(h, s, address.service);
    var id := s.mapAddr[address.service.ip];
    var before := s.mapInfo[id];
    var info := Refreshed(before, address, penalty, now);
    var t := s.(mapInfo := s.mapInfo[id := info]);
    RefreshedKeeps(before, address, penalty, now);
    RefreshOk(h, s, id, info);
    ReferenceCount(h, s, id);
    WorthIf(before, info, address, random);
    if WorthAnother(info, address, random) {
      InsertAgain(h, t, id, source, later);
      AgainIfFree(h, s, t, id, source, later);
    }
  }

  lemma RefreshedKeeps(info: Info, address: Address, penalty: int, now: int)
    ensures var after := Refreshed(info, address, penalty, now);
            after == info.(address := after.address) && after.address.service == info.address.service
  {
  }

  lemma ReferenceCount(h: Hashing, s: State, id: int)
    requires Consistent(h, s) && id in s.mapInfo
    ensures 0 <= s.mapInfo[id].nRefCount <= NEW_BUCKETS_PER_ADDRESS
    ensures s.mapInfo[id].fInTried ==> s.mapInfo[id].nRefCount == 0
  {
    assert InfoOk(h, s, id);
  }

  lemma WorthIf(before: Info, info: Info, address: Address, random: nat)
    requires info == before.(address := info.address) && 0 <= before.nRefCount <= NEW_BUCKETS_PER_ADDRESS
    ensures WorthAnother(info, address, random)
            <==> && address.nTime > info.address.nTime && !before.fInTried
                 && before.nRefCount < NEW_BUCKETS_PER_ADDRESS
                 && random % [1, 2, 4, 8, 16, 32, 64, 128][before.nRefCount] == 0
  {
    assert Pow2(0) == 1 && Pow2(1) == 2 && Pow2(2) == 4 && Pow2(3) == 8;
    assert Pow2(4) == 2 * Pow2(3) && Pow2(5) == 2 * Pow2(4) && Pow2(6) == 2 * Pow2(5) && Pow2(7) == 2 * Pow2(6);
  }

  lemma AgainIfFree(h: Hashing, s: State, t: State, id: int, source: NetAddr, now: int)
    requires Consistent(h, t) && id in s.mapInfo && !s.mapInfo[id].fInTried && id in t.mapInfo
    requires t == s.(mapInfo := s.mapInfo[id := t.mapInfo[id]])
    requires t.mapInfo[id] == s.mapInfo[id].(address := t.mapInfo[id].address)
    requires t.mapInfo[id].address.service == s.mapInfo[id].address.service
    requires t.mapInfo[id].nRefCount != NEW_BUCKETS_PER_ADDRESS
    ensures var u := Insert(h, t, id, source, now);
            && id in u.mapInfo
            && u.mapInfo[id].nRefCount
               == t.mapInfo[id].nRefCount
                  + if FreeFor(h, s, id, s.mapInfo[id].address.service, source, now) then 1 else 0
  {
    hide Core, Insert, IsTerrible, Counted, Position, NewBucket, Referenced, At;
    InsertAgainGives(h, t, id, source, now);
  }

  lemma ReferencedOnce(s: State, id: int)
    requires Referenced(s, {}) && id in s.mapInfo && !s.mapInfo[id].fInTried
    ensures s.mapInfo[id].nRefCount >= 1
  {
  }

  /** An entry with references overwrites only terrible ones. */
  lemma TerribleGoes(s: State, existing: int, info: Info, now: int)
    requires info.nRefCount >= 1
    ensures existing in s.mapInfo ==>
              (Overwritable(s.mapInfo[existing], info, now) <==> IsTerrible(s.mapInfo[existing], now))
  {
  }

  /** Where an entry with references may not go, Insert changes nothing. */
  lemma InsertStays(h: Hashing, s: State, id: int, source: NetAddr, now: int)
    requires Core(h, s) && id in s.mapInfo && !s.mapInfo[id].fInTried && s.mapInfo[id].nRefCount >= 1
    requires var b := NewBucket(h, s.nKey, s.mapInfo[id].address.service, source);
             var existing := At(s.vvNew, b, Position(h, s.nKey, true, b, s.mapInfo[id].address.service));
             || existing == id
             || !(existing == -1 || (existing in s.mapInfo && Overwritable(s.mapInfo[existing], s.mapInfo[id], now)))
    ensures Insert(h, s, id, source, now) == s
  {
    hide Core, At, IsTerrible, Referenced, Counted, Overwritable, Position, NewBucket, ClearNew, CanClear, Delete, Slot;
  }
}
