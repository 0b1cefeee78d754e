/** A stack of CCoinsViewCache layers over the coin database (src/coins.cpp, src/txdb.cpp).

    Layer 0 lies on the database, each further layer on the one before. The functions give what every
    operation of the top layer returns and leaves behind; CoinsViews.dfy has the objects. A stack reads
    as one map in which "pruned" and "absent" are the same, and keeps doing so over every run.
*/
module CoinsStack {
  import opened Wrappers
  import opened Coins

  type Txid = int

  /** A 256-bit hash; zero is the null hash. */
  type Hash = int

  /** CCoinsCacheEntry with its DIRTY and FRESH flags. */
  datatype Entry = Entry(coins: Coins, isDirty: bool, isFresh: bool)

  type CoinsMap = map<Txid, Entry>

  /** cacheCoins and hashBlock of a cache. */
  datatype Layer = Layer(cache: CoinsMap, hashBlock: Hash)

  /** The coin database: CCoinsViewDB. */
  datatype Database = Database(coins: map<Txid, Coins>, bestBlock: Hash)

  function Top(layers: seq<Layer>): Layer
    requires layers != []
  {
    layers[|layers| - 1]
  }

  function Below(layers: seq<Layer>): seq<Layer>
    requires layers != []
  {
    layers[..|layers| - 1]
  }

  /** Replacing the cache of the top layer. */
  function WithTop(layers: seq<Layer>, cache: CoinsMap): seq<Layer>
    requires layers != []
  {
    Below(layers) + [Top(layers).(cache := cache)]
  }

  // ---------------------------------------------------------------------------------------
  // The map a stack stands for

  /** Pruned coins are no coins. */
  function Norm(c: Coins): Option<Coins> {
    if IsPruned(c) then None else Some(c)
  }

  /** What the stack holds for a transaction, as one map. */
  function View(db: Database, layers: seq<Layer>, t: Txid): Option<Coins> {
    if layers == [] then (if t in db.coins then Norm(db.coins[t]) else None)
    else if t in Top(layers).cache then Norm(Top(layers).cache[t].coins)
    else View(db, Below(layers), t)
  }

  // ---------------------------------------------------------------------------------------
  // Operations

  /** The fresh flag a fetched entry gets: the parent only has an empty entry. */
  function Fetched(c: Coins): Entry {
    Entry(c, false, IsPruned(c))
  }

  /** FetchCoins and GetCoins: the layers afterwards, with the entry pulled up through all of them,
      and the coins found. */
  function Fetch(db: Database, layers: seq<Layer>, t: Txid): (r: (seq<Layer>, Option<Coins>))
    ensures |r.0| == |layers|
  {
    if layers == [] then (layers, if t in db.coins then Some(db.coins[t]) else None)
    else if t in Top(layers).cache then (layers, Some(Top(layers).cache[t].coins))
    else
      var (below, found) := Fetch(db, Below(layers), t);
      match found
      case None => (below + [Top(layers)], None)
      case Some(c) => (below + [Top(layers).(cache := Top(layers).cache[t := Fetched(c)])], Some(c))
  }

  /** HaveCoins, from what FetchCoins found. */
  predicate Have(found: Option<Coins>) {
    found.Some? && found.value.vout != []
  }

  /** The entry ModifyCoins hands out: an existing one made dirty, or a new one. */
  function Modifying(existing: Option<Entry>, found: Option<Coins>): Entry {
    match existing
    case Some(e) => e.(isDirty := true)
    case None =>
      match found
      case None => Entry(NO_COINS, true, true)
      case Some(c) => Entry(c, true, IsPruned(c))
  }

  function Lookup(cache: CoinsMap, t: Txid): Option<Entry> {
    if t in cache then Some(cache[t]) else None
  }

  /** ModifyCoins of the top layer. */
  function Modify(db: Database, layers: seq<Layer>, t: Txid): (r: seq<Layer>)
    requires layers != []
    ensures |r| == |layers| && t in Top(r).cache
  {
    var cache := Top(layers).cache;
    if t in cache then WithTop(layers, cache[t := Modifying(Some(cache[t]), None)])
    else
      var (below, found) := Fetch(db, Below(layers), t);
      below + [Top(layers).(cache := cache[t := Modifying(None, found)])]
  }

  /** The cache after a modifier that left coins c is released. */
  function Released(cache: CoinsMap, t: Txid, c: Coins): CoinsMap
    requires t in cache
  {
    if cache[t].isFresh && IsPruned(c) then cache - {t} else cache[t := cache[t].(coins := Cleaned(c))]
  }

  /** ModifyCoins, an assignment through the modifier, and its release. */
  function Write(db: Database, layers: seq<Layer>, t: Txid, c: Coins): (r: seq<Layer>)
    requires layers != []
    ensures |r| == |layers|
  {
    var modified := Modify(db, layers, t);
    WithTop(modified, Released(Top(modified).cache, t, c))
  }

  /** What BatchWrite makes of one transaction's entries in parent and child. */
  function MergeOne(ours: Option<Entry>, theirs: Option<Entry>): Option<Entry> {
    if theirs.None? || !theirs.value.isDirty then ours
    else
      var c := theirs.value.coins;
      match ours
      case None => if IsPruned(c) then None else Some(Entry(c, true, true))
      case Some(e) => if e.isFresh && IsPruned(c) then None else Some(e.(coins := c, isDirty := true))
  }

  /** The assertion of BatchWrite: unpruned coins the parent does not have are fresh. */
  predicate MergeAllowed(ours: Option<Entry>, theirs: Entry) {
    theirs.isDirty && ours.None? && !IsPruned(theirs.coins) ==> theirs.isFresh
  }

  /** CCoinsViewCache::BatchWrite. */
  function Merge(ours: CoinsMap, theirs: CoinsMap): CoinsMap {
    map t | t in ours.Keys + theirs.Keys && MergeOne(Lookup(ours, t), Lookup(theirs, t)).Some?
      :: MergeOne(Lookup(ours, t), Lookup(theirs, t)).value
  }

  /** What CCoinsViewDB::BatchWrite makes of one transaction. */
  function StoreOne(ours: Option<Coins>, theirs: Option<Entry>): Option<Coins> {
    if theirs.None? || !theirs.value.isDirty then ours
    else if IsPruned(theirs.value.coins) then None
    else Some(theirs.value.coins)
  }

  function Stored(coins: map<Txid, Coins>, t: Txid): Option<Coins> {
    if t in coins then Some(coins[t]) else None
  }

  /** CCoinsViewDB::BatchWrite. */
  function Store(coins: map<Txid, Coins>, theirs: CoinsMap): map<Txid, Coins> {
    map t | t in coins.Keys + theirs.Keys && StoreOne(Stored(coins, t), Lookup(theirs, t)).Some?
      :: StoreOne(Stored(coins, t), Lookup(theirs, t)).value
  }

  /** Flush of the top layer. */
  function Flush(db: Database, layers: seq<Layer>): (r: (Database, seq<Layer>))
    requires layers != []
    ensures |r.1| == |layers|
  {
    var top := Top(layers);
    var below := Below(layers);
    var emptied := top.(cache := map[]);
    if below == [] then
      (Database(Store(db.coins, top.cache), if top.hashBlock != 0 then top.hashBlock else db.bestBlock), [emptied])
    else
      (db, Below(below) + [Layer(Merge(Top(below).cache, top.cache), top.hashBlock)] + [emptied])
  }

  // ---------------------------------------------------------------------------------------
  // The invariant

  ghost predicate DatabaseOk(db: Database) {
    forall t :: t in db.coins ==> IsClean(db.coins[t])
  }

  /** The parent of an entry knows the transaction: the layer below holds it, or there is none. */
  predicate ParentHolds(below: seq<Layer>, t: Txid) {
    below == [] || t in Top(below).cache
  }

  /** One entry over the layers below it: fresh if nothing below holds coins, known to its parent
      otherwise, and unchanged if not dirty. */
  ghost predicate EntryOk(db: Database, below: seq<Layer>, t: Txid, e: Entry) {
    && IsClean(e.coins)
    && (e.isFresh ==> View(db, below, t) == None)
    && (!e.isFresh ==> ParentHolds(below, t))
    && (!e.isDirty ==> Norm(e.coins) == View(db, below, t))
  }

  ghost predicate LayerOk(db: Database, below: seq<Layer>, cache: CoinsMap) {
    forall t :: t in cache ==> EntryOk(db, below, t, cache[t])
  }

  ghost predicate StackOk(db: Database, layers: seq<Layer>) {
    if layers == [] then DatabaseOk(db)
    else StackOk(db, Below(layers)) && LayerOk(db, Below(layers), Top(layers).cache)
  }

  // ---------------------------------------------------------------------------------------
  // Reading

  ghost predicate SameView(db: Database, a: seq<Layer>, b: seq<Layer>) {
    forall t :: View(db, a, t) == View(db, b, t)
  }

  /** No layer loses an entry. */
  ghost predicate Grows(before: seq<Layer>, after: seq<Layer>) {
    |before| == |after| && forall k, t :: 0 <= k < |before| && t in before[k].cache ==> t in after[k].cache
  }

  /** A cache stays in order over layers that read the same and lose no entry. */
  lemma LayerKept(db: Database, before: seq<Layer>, after: seq<Layer>, cache: CoinsMap)
    requires LayerOk(db, before, cache) && SameView(db, before, after) && Grows(before, after)
    ensures LayerOk(db, after, cache)
  {
    forall t | t in cache
      ensures EntryOk(db, after, t, cache[t])
    {
      assert EntryOk(db, before, t, cache[t]);
      assert View(db, before, t) == View(db, after, t);
      assert ParentHolds(before, t) ==> ParentHolds(after, t);
    }
  }

  /** Changing the top entry of one transaction, over layers that read the same, changes the view of
      that transaction only. */
  lemma TopChanged(db: Database, before: seq<Layer>, after: seq<Layer>, t: Txid)
    requires before != [] && after != [] && SameView(db, Below(before), Below(after))
    requires Top(after).cache - {t} == Top(before).cache - {t}
    ensures forall u :: u != t ==> View(db, after, u) == View(db, before, u)
  {
    forall u | u != t
      ensures View(db, after, u) == View(db, before, u)
    {
      assert Lookup(Top(after).cache, u) == Lookup(Top(after).cache - {t}, u) == Lookup(Top(before).cache, u);
      assert View(db, Below(after), u) == View(db, Below(before), u);
    }
  }

  /** Pulling fetched coins up into the top layer. */
  lemma PullUp(db: Database, layers: seq<Layer>, below: seq<Layer>, t: Txid, c: Coins) returns (after: seq<Layer>)
    requires layers != [] && StackOk(db, layers) && t !in Top(layers).cache
    requires StackOk(db, below) && SameView(db, Below(layers), below) && Grows(Below(layers), below)
    requires IsClean(c) && ParentHolds(below, t) && View(db, below, t) == Norm(c)
    ensures after == below + [Top(layers).(cache := Top(layers).cache[t := Fetched(c)])]
    ensures StackOk(db, after) && SameView(db, layers, after) && Grows(layers, after)
  {
    var cache := Top(layers).cache;
    after := below + [Top(layers).(cache := cache[t := Fetched(c)])];
    assert Below(after) == below;
    LayerKept(db, Below(layers), below, cache);
    LayerGains(db, below, cache, t, c);
    hide LayerOk;
    TopChanged(db, layers, after, t);
    assert View(db, layers, t) == View(db, Below(layers), t);
  }

  /** An entry as FetchCoins makes it fits over layers that read the same. */
  lemma LayerGains(db: Database, below: seq<Layer>, cache: CoinsMap, t: Txid, c: Coins)
    requires LayerOk(db, below, cache)
    requires IsClean(c) && ParentHolds(below, t) && View(db, below, t) == Norm(c)
    ensures LayerOk(db, below, cache[t := Fetched(c)])
  {
    assert EntryOk(db, below, t, Fetched(c));
    var grown := cache[t := Fetched(c)];
    forall u | u in grown
      ensures EntryOk(db, below, u, grown[u])
    {
      assert u != t ==> EntryOk(db, below, u, cache[u]);
    }
  }

  /** Finding nothing leaves the top layer as it is. */
  lemma FoundNothing(db: Database, layers: seq<Layer>, below: seq<Layer>, t: Txid)
    requires layers != [] && StackOk(db, layers) && t !in Top(layers).cache
    requires StackOk(db, below) && SameView(db, Below(layers), below) && Grows(Below(layers), below)
    ensures var after := below + [Top(layers)];
            StackOk(db, after) && SameView(db, layers, after) && Grows(layers, after)
  {
    var after := below + [Top(layers)];
    assert Below(after) == below;
    LayerKept(db, Below(layers), below, Top(layers).cache);
    hide LayerOk;
    TopChanged(db, layers, after, t);
    assert View(db, layers, t) == View(db, Below(layers), t);
  }

  /** Fetching adds entries only where the transaction was missing: not dirty, and fresh just if empty. */
  lemma {:induction false} FetchAdds(db: Database, layers: seq<Layer>, t: Txid)
    ensures var (after, found) := Fetch(db, layers, t);
            forall k :: 0 <= k < |layers| ==>
              && after[k].hashBlock == layers[k].hashBlock
              && (forall u :: u in layers[k].cache ==>
                    u in after[k].cache && after[k].cache[u] == layers[k].cache[u])
              && (forall u :: u in after[k].cache && u !in layers[k].cache ==>
                    && u == t && found == Some(after[k].cache[t].coins) && !after[k].cache[t].isDirty
                    && (after[k].cache[t].isFresh <==> IsPruned(found.value)))
    decreases |layers|
  {
    if layers != [] && t !in Top(layers).cache {
      FetchAdds(db, Below(layers), t);
    }
  }

  /** Fetching finds what the stack stands for, changes no view at any level, never loses an entry,
      and keeps the invariant; what it finds, the top layer then holds. */
  lemma {:induction false} FetchReads(db: Database, layers: seq<Layer>, t: Txid)
    requires StackOk(db, layers)
    ensures var (after, found) := Fetch(db, layers, t);
            && StackOk(db, after) && SameView(db, layers, after) && Grows(layers, after)
            && (found.Some? ==> IsClean(found.value) && ParentHolds(after, t))
            && View(db, layers, t) == (if found.Some? then Norm(found.value) else None)
    decreases |layers|
  {
    if layers != [] && t !in Top(layers).cache {
      FetchReads(db, Below(layers), t);
      var (below, found) := Fetch(db, Below(layers), t);
      assert View(db, below, t) == View(db, Below(layers), t);
      match found
      case Some(c) =>
        var _ := PullUp(db, layers, below, t, c);
      case None =>
        FoundNothing(db, layers, below, t);
    }
  }

  // ---------------------------------------------------------------------------------------
  // Writing

  /** The view after a write: the cleaned coins, for that transaction only. */
  ghost predicate Written(db: Database, before: seq<Layer>, after: seq<Layer>, t: Txid, c: Coins)
    requires before != [] && after != []
  {
    && View(db, after, t) == Norm(Cleaned(c))
    && (forall u :: u != t ==> View(db, after, u) == View(db, before, u))
    && SameView(db, Below(before), Below(after))
  }

  /** The entry a modifier works on: dirty, in order, and reading as before. */
  ghost predicate Modified(db: Database, layers: seq<Layer>, after: seq<Layer>, t: Txid)
    requires layers != [] && after != []
  {
    && StackOk(db, Below(after)) && SameView(db, Below(layers), Below(after))
    && Grows(Below(layers), Below(after))
    && t in Top(after).cache && Top(after).cache - {t} == Top(layers).cache - {t}
    && Top(after).cache[t].isDirty && EntryOk(db, Below(after), t, Top(after).cache[t])
    && Norm(Top(after).cache[t].coins) == View(db, layers, t)
  }

  lemma ModifyExisting(db: Database, layers: seq<Layer>, t: Txid)
    requires layers != [] && StackOk(db, layers) && t in Top(layers).cache
    ensures Modified(db, layers, Modify(db, layers, t), t)
  {
    var after := Modify(db, layers, t);
    assert Below(after) == Below(layers);
    assert EntryOk(db, Below(layers), t, Top(layers).cache[t]);
  }

  lemma ModifyFetched(db: Database, layers: seq<Layer>, t: Txid)
    requires layers != [] && StackOk(db, layers) && t !in Top(layers).cache
    ensures Modified(db, layers, Modify(db, layers, t), t)
  {
    var cache := Top(layers).cache;
    var after := Modify(db, layers, t);
    FetchReads(db, Below(layers), t);
    var (below, found) := Fetch(db, Below(layers), t);
    assert Below(after) == below;
    assert View(db, below, t) == View(db, Below(layers), t);
    var entry := Modifying(None, found);
    assert Top(after).cache == cache[t := entry];
    assert EntryOk(db, below, t, entry);
  }

  /** A write through a modifier is a write to the one map the stack stands for, whatever the edit
      leaves, and keeps the invariant. */
  lemma WriteWrites(db: Database, layers: seq<Layer>, t: Txid, c: Coins)
    requires layers != [] && StackOk(db, layers)
    ensures StackOk(db, Write(db, layers, t, c))
    ensures Written(db, layers, Write(db, layers, t, c), t, c)
  {
    if t in Top(layers).cache {
      ModifyExisting(db, layers, t);
    } else {
      ModifyFetched(db, layers, t);
    }
    CleanedIsClean(c);
    var modified := Modify(db, layers, t);
    var after := Write(db, layers, t, c);
    var below := Below(modified);
    assert Below(after) == below;
    assert Top(after).cache - {t} == Top(layers).cache - {t};
    TopChanged(db, layers, after, t);
    LayerKept(db, Below(layers), below, Top(layers).cache);
    forall u | u in Top(after).cache
      ensures EntryOk(db, below, u, Top(after).cache[u])
    {
      assert u != t ==> Lookup(Top(after).cache - {t}, u) == Lookup(Top(layers).cache - {t}, u);
    }
  }

  // ---------------------------------------------------------------------------------------
  // Flushing

  /** What flushing one entry does to the parent's reading of a transaction. */
  lemma MergeOneReads(db: Database, under: seq<Layer>, t: Txid, ours: Option<Entry>, theirs: Option<Entry>)
    requires ours.Some? ==> EntryOk(db, under, t, ours.value)
    requires var parent := if ours.Some? then Norm(ours.value.coins) else View(db, under, t);
             && (theirs.Some? ==> IsClean(theirs.value.coins))
             && (theirs.Some? && theirs.value.isFresh ==> parent == None)
             && (theirs.Some? && !theirs.value.isFresh ==> ours.Some?)
             && (theirs.Some? && !theirs.value.isDirty ==> Norm(theirs.value.coins) == parent)
    ensures theirs.Some? ==> MergeAllowed(ours, theirs.value)
    ensures var parent := if ours.Some? then Norm(ours.value.coins) else View(db, under, t);
            var merged := MergeOne(ours, theirs);
            && (merged.Some? ==> EntryOk(db, under, t, merged.value))
            && (if merged.Some? then Norm(merged.value.coins) else View(db, under, t))
               == (if theirs.Some? then Norm(theirs.value.coins) else parent)
  {
  }

  /** Flushing into a cache. */
  lemma FlushToCache(db: Database, under: seq<Layer>, parent: Layer, child: Layer)
    requires StackOk(db, under + [parent, child])
    ensures forall t :: t in child.cache ==> MergeAllowed(Lookup(parent.cache, t), child.cache[t])
    ensures var merged := Layer(Merge(parent.cache, child.cache), child.hashBlock);
            && StackOk(db, under + [merged])
            && SameView(db, under + [merged], under + [parent, child])
  {
    var merged := Layer(Merge(parent.cache, child.cache), child.hashBlock);
    var old2, old1, new1 := under + [parent, child], under + [parent], under + [merged];
    assert Below(old2) == old1 && Below(old1) == under && Below(new1) == under;
    forall t
      ensures t in child.cache ==> MergeAllowed(Lookup(parent.cache, t), child.cache[t])
      ensures t in merged.cache ==> EntryOk(db, under, t, merged.cache[t])
      ensures View(db, new1, t) == View(db, old2, t)
    {
      assert t in child.cache ==> EntryOk(db, old1, t, child.cache[t]);
      MergeOneReads(db, under, t, Lookup(parent.cache, t), Lookup(child.cache, t));
    }
  }

  /** Flushing into the database. */
  lemma FlushToDatabase(db: Database, child: Layer)
    requires StackOk(db, [child])
    ensures var bestBlock := if child.hashBlock != 0 then child.hashBlock else db.bestBlock;
            var stored := Database(Store(db.coins, child.cache), bestBlock);
            && DatabaseOk(stored)
            && forall t :: View(stored, [], t) == View(db, [child], t)
  {
    assert Below([child]) == [];
    forall t
      ensures t in Store(db.coins, child.cache) ==> IsClean(Store(db.coins, child.cache)[t])
      ensures (if t in Store(db.coins, child.cache) then Norm(Store(db.coins, child.cache)[t]) else None)
              == View(db, [child], t)
    {
      assert t in child.cache ==> EntryOk(db, [], t, child.cache[t]);
    }
  }

  /** The assertion in BatchWrite holds for every entry that Flush passes down. */
  ghost predicate FlushAllowed(layers: seq<Layer>)
    requires layers != []
  {
    Below(layers) != [] ==>
      forall t :: t in Top(layers).cache ==>
        MergeAllowed(Lookup(Top(Below(layers)).cache, t), Top(layers).cache[t])
  }

  /** Flush never trips the assertion, keeps the invariant, and makes the parent read as the flushed
      cache did; the flushed cache and every layer further down read on as before. */
  lemma FlushFlushes(db: Database, layers: seq<Layer>)
    requires layers != [] && StackOk(db, layers)
    ensures FlushAllowed(layers)
    ensures var (db', after) := Flush(db, layers);
            && StackOk(db', after)
            && (forall t :: View(db', Below(after), t) == View(db, layers, t))
            && (forall t :: View(db', after, t) == View(db, layers, t))
            && (|layers| > 1 ==> db' == db && Below(Below(after)) == Below(Below(layers)))
  {
    var top, below := Top(layers), Below(layers);
    var (db', after) := Flush(db, layers);
    if below == [] {
      assert layers == [top];
      FlushToDatabase(db, top);
      assert Below(after) == [];
    } else {
      var under, parent := Below(below), Top(below);
      assert layers == under + [parent, top];
      FlushToCache(db, under, parent, top);
      assert Below(after) == under + [Layer(Merge(parent.cache, top.cache), top.hashBlock)];
    }
    assert Top(after).cache == map[];
  }
}
