/** The objects of src/coins.cpp and src/txdb.cpp: the coin database, and caches whose base is another
    cache or the database. Each method is tied to the function of CoinsStack.dfy for the whole chain
    of caches below the one it is called on.
*/
module CoinsViews {
  import opened Wrappers
  import opened Coins
  import opened CoinsStack
  import CoinsRuns

  /** CCoinsViewDB. */
  class CoinsViewDB {
    var db: Database

    constructor (initial: Database)
      ensures db == initial
    {
      db := initial;
    }

    method GetCoins(t: Txid) returns (ok: bool, coins: Coins)
      ensures ok <==> t in db.coins
      ensures ok ==> coins == db.coins[t]
    {
      if t in db.coins {
        return true, db.coins[t];
      }
      return false, NO_COINS;
    }

    /** One entry of BatchWrite: BatchWriteCoins if it is dirty. */
    method StoreEntry(coins: map<Txid, Coins>, t: Txid, entry: Entry) returns (after: map<Txid, Coins>)
      ensures Stored(after, t) == StoreOne(Stored(coins, t), Some(entry))
      ensures forall u :: u != t ==> Stored(after, u) == Stored(coins, u)
    {
      after := coins;
      if entry.isDirty {
        if IsPruned(entry.coins) {
          after := coins - {t};
        } else {
          after := coins[t := entry.coins];
        }
      }
    }

    /** BatchWrite: dirty entries are written or, when pruned, erased; a null hash is not written. */
    method BatchWrite(mapCoins: CoinsMap, hashBlock: Hash)
      modifies this
      ensures db == Database(Store(old(db).coins, mapCoins), if hashBlock != 0 then hashBlock else old(db).bestBlock)
    {
      var left: set<Txid> := mapCoins.Keys;
      var coins := db.coins;
      ghost var before := db;
      var more := true;
      while more
        invariant db == before && StoredBut(before.coins, mapCoins, left, coins)
        invariant !more ==> forall t :: t !in left
        decreases left, more
      {
        if t :| t in left {
          var after := StoreEntry(coins, t, mapCoins[t]);
          StoreStep(before.coins, mapCoins, left, coins, after, t);
          coins, left := after, left - {t};
        } else {
          more := false;
        }
      }
      StoredAll(db.coins, mapCoins, left, coins);
      db := Database(coins, if hashBlock != 0 then hashBlock else db.bestBlock);
    }
  }

  /** All entries are stored but those still left. */
  ghost predicate StoredBut(ours: map<Txid, Coins>, theirs: CoinsMap, left: set<Txid>, coins: map<Txid, Coins>) {
    && left <= theirs.Keys
    && (forall t :: t in left ==> Stored(coins, t) == Stored(ours, t))
    && (forall t :: t !in left ==> Stored(coins, t) == StoreOne(Stored(ours, t), Lookup(theirs, t)))
  }

  lemma StoreStep(ours: map<Txid, Coins>, theirs: CoinsMap, left: set<Txid>, before: map<Txid, Coins>,
                  after: map<Txid, Coins>, t: Txid)
    requires StoredBut(ours, theirs, left, before) && t in left
    requires Stored(after, t) == StoreOne(Stored(before, t), Lookup(theirs, t))
    requires forall u :: u != t ==> Stored(after, u) == Stored(before, u)
    ensures StoredBut(ours, theirs, left - {t}, after)
  {
  }

  lemma StoredAll(ours: map<Txid, Coins>, theirs: CoinsMap, left: set<Txid>, coins: map<Txid, Coins>)
    requires StoredBut(ours, theirs, left, coins) && forall t :: t !in left
    ensures coins == Store(ours, theirs)
  {
    var store := Store(ours, theirs);
    forall t
      ensures t in coins <==> t in store
      ensures t in coins && t in store ==> coins[t] == store[t]
    {
      assert Stored(coins, t) == StoreOne(Stored(ours, t), Lookup(theirs, t));
    }
  }

  /** All entries are merged but those still left. */
  ghost predicate MergedBut(ours: CoinsMap, theirs: CoinsMap, left: set<Txid>, cache: CoinsMap) {
    && left <= theirs.Keys
    && (forall t :: t in left ==> Lookup(cache, t) == Lookup(ours, t))
    && (forall t :: t !in left ==> Lookup(cache, t) == MergeOne(Lookup(ours, t), Lookup(theirs, t)))
  }

  lemma MergeStep(ours: CoinsMap, theirs: CoinsMap, left: set<Txid>, before: CoinsMap, after: CoinsMap, t: Txid)
    requires MergedBut(ours, theirs, left, before) && t in left
    requires Lookup(after, t) == MergeOne(Lookup(before, t), Lookup(theirs, t))
    requires forall u :: u != t ==> Lookup(after, u) == Lookup(before, u)
    ensures MergedBut(ours, theirs, left - {t}, after)
  {
  }

  lemma MergedAll(ours: CoinsMap, theirs: CoinsMap, left: set<Txid>, cache: CoinsMap)
    requires MergedBut(ours, theirs, left, cache) && forall t :: t !in left
    ensures cache == Merge(ours, theirs)
  {
    var merged := Merge(ours, theirs);
    forall t
      ensures t in cache <==> t in merged
      ensures t in cache && t in merged ==> cache[t] == merged[t]
    {
      assert Lookup(cache, t) == MergeOne(Lookup(ours, t), Lookup(theirs, t));
    }
  }

  /** CCoinsViewCache. A null base stands for the database. */
  class CoinsViewCache {
    const db: CoinsViewDB
    const base: CoinsViewCache?
    var cacheCoins: CoinsMap
    var hashBlock: Hash
    var hasModifier: bool

    /** The caches from the one on the database up to this one. */
    ghost const chain: seq<CoinsViewCache>

    constructor (db: CoinsViewDB, base: CoinsViewCache?)
      requires base != null ==> base.Chained() && base.db == db
      ensures Chained() && this.db == db && this.base == base
      ensures chain == (if base == null then [] else base.chain) + [this]
      ensures AsLayer() == Layer(map[], 0) && !hasModifier
    {
      this.db := db;
      this.base := base;
      cacheCoins := map[];
      hashBlock := 0;
      hasModifier := false;
      chain := (if base == null then [] else base.chain) + [this];
    }

    /** The chain ends here, repeats no cache, and goes on through the base. */
    ghost predicate Chained()
      decreases |chain|
    {
      && chain != [] && chain[|chain| - 1] == this
      && (forall i, j :: 0 <= i < j < |chain| ==> chain[i] != chain[j])
      && (base == null <==> |chain| == 1)
      && (base != null ==> base.chain == chain[..|chain| - 1] && base.db == db && base.Chained())
    }

    ghost function AsLayer(): Layer
      reads this
    {
      Layer(cacheCoins, hashBlock)
    }

    /** The stack of layers this cache is the top of. */
    ghost function Layers(): (r: seq<Layer>)
      reads set c | c in chain
      ensures |r| == |chain|
    {
      seq(|chain|, i requires 0 <= i < |chain| reads set c | c in chain => chain[i].AsLayer())
    }

    /** The layers of the base; none on the database. */
    ghost function BaseLayers(): seq<Layer>
      requires Chained()
      reads set c | c in chain
    {
      if base == null then [] else base.Layers()
    }

    lemma LayersOnBase()
      requires Chained()
      ensures Layers() == BaseLayers() + [AsLayer()]
      ensures Below(Layers()) == BaseLayers() && Top(Layers()) == AsLayer()
    {
    }

    /** GetCoins of the base, whatever it is. */
    method BaseGetCoins(t: Txid) returns (ok: bool, coins: Coins)
      requires Chained()
      modifies set c | c in chain && c != this
      ensures BaseLayers() == Fetch(db.db, old(BaseLayers()), t).0
      ensures ok <==> Fetch(db.db, old(BaseLayers()), t).1.Some?
      ensures ok ==> coins == Fetch(db.db, old(BaseLayers()), t).1.value
      ensures forall c :: c in chain ==> c.hasModifier == old(c.hasModifier)
      decreases |chain|, 0
    {
      if base == null {
        ok, coins := db.GetCoins(t);
      } else {
        ok, coins := base.GetCoins(t);
      }
    }

    /** FetchCoins: whether the cache then holds the transaction. */
    method FetchCoins(t: Txid) returns (found: bool)
      requires Chained()
      modifies set c | c in chain
      ensures Layers() == Fetch(db.db, old(Layers()), t).0
      ensures found <==> Fetch(db.db, old(Layers()), t).1.Some?
      ensures found ==> t in cacheCoins && Fetch(db.db, old(Layers()), t).1 == Some(cacheCoins[t].coins)
      ensures forall c :: c in chain ==> c.hasModifier == old(c.hasModifier)
      decreases |chain|, 1
    {
      LayersOnBase();
      if t in cacheCoins {
        return true;
      }
      var ok, tmp := BaseGetCoins(t);
      if ok {
        cacheCoins := cacheCoins[t := Entry(tmp, false, IsPruned(tmp))];
      }
      LayersOnBase();
      return ok;
    }

    method GetCoins(t: Txid) returns (ok: bool, coins: Coins)
      requires Chained()
      modifies set c | c in chain
      ensures Layers() == Fetch(db.db, old(Layers()), t).0
      ensures ok <==> Fetch(db.db, old(Layers()), t).1.Some?
      ensures ok ==> coins == Fetch(db.db, old(Layers()), t).1.value
      ensures forall c :: c in chain ==> c.hasModifier == old(c.hasModifier)
      decreases |chain|, 2
    {
      ok := FetchCoins(t);
      if ok {
        return true, cacheCoins[t].coins;
      }
      return false, NO_COINS;
    }

    method HaveCoins(t: Txid) returns (yes: bool)
      requires Chained()
      modifies set c | c in chain
      ensures Layers() == Fetch(db.db, old(Layers()), t).0
      ensures yes <==> Have(Fetch(db.db, old(Layers()), t).1)
    {
      var found := FetchCoins(t);
      return found && |cacheCoins[t].coins.vout| != 0;
    }
 
    /** The entry ModifyCoins makes of what the base found. */
    method NewEntry(ok: bool, coins: Coins) returns (entry: Entry)
      ensures entry.(isDirty := true) == Modifying(None, if ok then Some(coins) else None)
    {
      entry := Entry(NO_COINS, false, false);
      if !ok {
        entry := entry.(isFresh := true);
      } else if IsPruned(coins) {
        entry := entry.(coins := coins, isFresh := true);
      } else {
        entry := entry.(coins := coins);
      }
    }

    /** ModifyCoins: makes sure of an entry for the modifier to work on and marks it dirty. */
    method ModifyCoins(t: Txid) returns (modifier: CoinsModifier)
      requires Chained() && !hasModifier
      modifies set c | c in chain
      ensures fresh(modifier) && modifier.cache == this && modifier.t == t
      ensures hasModifier && t in cacheCoins
      ensures Layers() == Modify(db.db, old(Layers()), t)
    {
      hide Fetch, IsPruned, View;
      LayersOnBase();
      if t in cacheCoins {
        cacheCoins := cacheCoins[t := cacheCoins[t].(isDirty := true)];
      } else {
        var ok, coins := BaseGetCoins(t);
        var entry := NewEntry(ok, coins);
        cacheCoins := cacheCoins[t := entry.(isDirty := true)];
      }
      LayersOnBase();
      modifier := new CoinsModifier(this, t);
    }

    /** ModifyCoins, an assignment through the modifier, and its destruction. */
    method Put(t: Txid, c: Coins)
      requires Chained() && !hasModifier
      modifies set c | c in chain
      ensures Layers() == Write(db.db, old(Layers()), t, c) && !hasModifier
    {
      hide Modify, Fetch, Released;
      var modifier := ModifyCoins(t);
      LayersOnBase();
      UseModifier(modifier, c);
      LayersOnBase();
    }

    method UseModifier(modifier: CoinsModifier, c: Coins)
      requires Chained() && hasModifier && modifier.cache == this && modifier.t in cacheCoins
      modifies this
      ensures !hasModifier && hashBlock == old(hashBlock) && BaseLayers() == old(BaseLayers())
      ensures cacheCoins == Released(old(cacheCoins), modifier.t, c)
    {
      ReleasedAfter(cacheCoins, modifier.t, c);
      modifier.Assign(c);
      modifier.Destroy();
    }

    /** One entry of BatchWrite. */
    method MergeEntry(cache: CoinsMap, t: Txid, entry: Entry) returns (after: CoinsMap)
      requires MergeAllowed(Lookup(cache, t), entry)
      ensures Lookup(after, t) == MergeOne(Lookup(cache, t), Some(entry))
      ensures forall u :: u != t ==> Lookup(after, u) == Lookup(cache, u)
    {
      after := cache;
      if entry.isDirty {
        if t !in cache {
          if !IsPruned(entry.coins) {
            assert entry.isFresh;
            after := cache[t := Entry(entry.coins, true, true)];
          }
        } else if cache[t].isFresh && IsPruned(entry.coins) {
          after := cache - {t};
        } else {
          after := cache[t := cache[t].(coins := entry.coins, isDirty := true)];
        }
      }
    }

    /** BatchWrite: takes over the dirty entries of a child. */
    method BatchWrite(mapCoins: CoinsMap, hashBlockIn: Hash)
      requires !hasModifier
      requires forall t :: t in mapCoins ==> MergeAllowed(Lookup(cacheCoins, t), mapCoins[t])
      modifies this
      ensures AsLayer() == Layer(Merge(old(cacheCoins), mapCoins), hashBlockIn) && !hasModifier
    {
      var left: set<Txid>, cache := mapCoins.Keys, cacheCoins;
      ghost var before := cacheCoins;
      var more := true;
      while more
        invariant cacheCoins == before && !hasModifier && MergedBut(before, mapCoins, left, cache)
        invariant !more ==> forall t :: t !in left
        decreases left, more
      {
        if t :| t in left {
          assert Lookup(cache, t) == Lookup(before, t);
          var after := MergeEntry(cache, t, mapCoins[t]);
          MergeStep(before, mapCoins, left, cache, after, t);
          cache, left := after, left - {t};
        } else {
          more := false;
        }
      }
      MergedAll(before, mapCoins, left, cache);
      cacheCoins := cache;
      hashBlock := hashBlockIn;
    }

    /** Flush, on a stack in order: the assertion in BatchWrite holds. */
    method FlushDown()
      requires Chained() && StackOk(db.db, Layers())
      requires base != null ==> !base.hasModifier
      modifies db, this, base
      ensures (db.db, Layers()) == Flush(old(db.db), old(Layers()))
      ensures StackOk(db.db, Layers())
      ensures forall t :: View(db.db, Below(Layers()), t) == old(View(db.db, Layers(), t))
      ensures forall t :: View(db.db, Layers(), t) == old(View(db.db, Layers(), t))
    {
      FlushFlushes(db.db, Layers());
      LayersOnBase();
      if base == null {
        db.BatchWrite(cacheCoins, hashBlock);
      } else {
        base.LayersOnBase();
        base.BatchWrite(cacheCoins, hashBlock);
        base.LayersOnBase();
      }
      cacheCoins := map[];
      LayersOnBase();
    }

    /** GetBestBlock: remembers the base's best block when none is set. */
    method GetBestBlock() returns (r: Hash)
      requires Chained()
      modifies set c | c in chain
      ensures r == CoinsRuns.BestBlock(db.db, old(Layers())) == CoinsRuns.BestBlock(db.db, Layers())
      ensures forall c :: c in chain ==> c.cacheCoins == old(c.cacheCoins) && c.hasModifier == old(c.hasModifier)
      decreases |chain|
    {
      LayersOnBase();
      if hashBlock == 0 {
        if base == null {
          hashBlock := db.db.bestBlock;
        } else {
          hashBlock := base.GetBestBlock();
        }
      }
      LayersOnBase();
      return hashBlock;
    }

    method SetBestBlock(h: Hash)
      modifies this
      ensures AsLayer() == Layer(old(cacheCoins), h) && hasModifier == old(hasModifier)
    {
      hashBlock := h;
    }
  }

  lemma ReleasedAfter(cache: CoinsMap, t: Txid, c: Coins)
    requires t in cache
    ensures Released(cache[t := cache[t].(coins := c)], t, c) == Released(cache, t, c)
  {
  }

  /** CCoinsModifier: a reference to the entry of one transaction. */
  class CoinsModifier {
    const cache: CoinsViewCache
    const t: Txid

    constructor (cache: CoinsViewCache, t: Txid)
      requires !cache.hasModifier
      modifies cache`hasModifier
      ensures this.cache == cache && this.t == t && cache.hasModifier
    {
      this.cache := cache;
      this.t := t;
      new;
      cache.hasModifier := true;
    }

    method Assign(c: Coins)
      requires t in cache.cacheCoins
      modifies cache`cacheCoins
      ensures cache.cacheCoins == old(cache.cacheCoins)[t := old(cache.cacheCoins)[t].(coins := c)]
    {
      cache.cacheCoins := cache.cacheCoins[t := cache.cacheCoins[t].(coins := c)];
    }

    /** The destructor: cleans the coins up, and drops an entry that is fresh and pruned. */
    method Destroy()
      requires cache.hasModifier && t in cache.cacheCoins
      modifies cache`cacheCoins, cache`hasModifier
      ensures !cache.hasModifier
      ensures cache.cacheCoins == Released(old(cache.cacheCoins), t, old(cache.cacheCoins)[t].coins)
    {
      cache.hasModifier := false;
      var entry := cache.cacheCoins[t];
      var left := Cleanup(entry.coins.vout);
      CleanedIsClean(entry.coins);
      entry := entry.(coins := entry.coins.(vout := left));
      if entry.isFresh && IsPruned(entry.coins) {
        cache.cacheCoins := cache.cacheCoins - {t};
      } else {
        cache.cacheCoins := cache.cacheCoins[t := entry];
      }
    }
  }
}
