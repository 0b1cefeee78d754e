/** Whole runs of a stack of coin caches: reads, writes, flushes, and caches put on and taken off the
    top. Every run answers as a stack of plain maps does.
*/
module CoinsRuns {
  import opened Wrappers
  import opened Coins
  import opened CoinsStack

  datatype Op =
    | Get(t: Txid)             // GetCoins or AccessCoins on the top cache
    | Have(t: Txid)            // HaveCoins
    | Put(t: Txid, c: Coins)   // ModifyCoins, an edit that leaves c, and the modifier's release
    | FlushTop                 // Flush
    | Push                     // a new cache on top
    | Pop                      // the top cache is dropped without a flush

  datatype Out = Found(coins: Option<Coins>) | Answer(yes: bool) | Done

  datatype State = State(db: Database, layers: seq<Layer>)

  /** One operation on the stack. Without a cache only Push does anything. */
  function Step(s: State, op: Op): (r: (State, Out)) {
    if op.Push? then (s.(layers := s.layers + [Layer(map[], 0)]), Done)
    else if s.layers == [] then (s, Done)
    else match op
      case Get(t) =>
        var (after, found) := Fetch(s.db, s.layers, t);
        (s.(layers := after), Found(if found.Some? then Norm(found.value) else None))
      case Have(t) =>
        var (after, found) := Fetch(s.db, s.layers, t);
        (s.(layers := after), Answer(CoinsStack.Have(found)))
      case Put(t, c) => (s.(layers := Write(s.db, s.layers, t, c)), Done)
      case FlushTop =>
        var (db, after) := Flush(s.db, s.layers);
        (State(db, after), Done)
      case Pop => (s.(layers := Below(s.layers)), Done)
  }

  /** The maps the database and each cache stand for, the top one last. */
  type Maps = m: seq<map<Txid, Coins>> | m != [] witness [map[]]

  /** The same operation on plain maps: a write changes the top map, a flush copies it down. */
  function PlainStep(m: Maps, op: Op): (r: (Maps, Out)) {
    var n := |m| - 1;
    if op.Push? then (m + [m[n]], Done)
    else if n == 0 then (m, Done)
    else match op
      case Get(t) => (m, Found(Stored(m[n], t)))
      case Have(t) => (m, Answer(t in m[n]))
      case Put(t, c) => (m[n := if IsPruned(c) then m[n] - {t} else m[n][t := Cleaned(c)]], Done)
      case FlushTop => (m[n - 1 := m[n]], Done)
      case Pop => (m[..n], Done)
  }

  function Run(s: State, ops: seq<Op>): (r: (State, seq<Out>))
    decreases |ops|
  {
    if ops == [] then (s, []) else
    var (s1, out) := Step(s, ops[0]);
    var (s2, outs) := Run(s1, ops[1..]);
    (s2, [out] + outs)
  }

  function PlainRun(m: Maps, ops: seq<Op>): (r: (Maps, seq<Out>))
    decreases |ops|
  {
    if ops == [] then (m, []) else
    var (m1, out) := PlainStep(m, ops[0]);
    var (m2, outs) := PlainRun(m1, ops[1..]);
    (m2, [out] + outs)
  }

  /** Every level of the stack reads as its map. */
  ghost predicate Agrees(s: State, m: Maps) {
    && StackOk(s.db, s.layers)
    && |m| == |s.layers| + 1
    && forall k, t :: 0 <= k < |m| ==> View(s.db, s.layers[..k], t) == Stored(m[k], t)
  }

  ghost predicate SameViews(db: Database, a: seq<Layer>, b: seq<Layer>) {
    |a| == |b| && forall k, t :: 0 <= k <= |a| ==> View(db, a[..k], t) == View(db, b[..k], t)
  }

  /** Fetching changes no view at any level. */
  lemma {:induction false} FetchKeepsViews(db: Database, layers: seq<Layer>, t: Txid)
    requires StackOk(db, layers)
    ensures SameViews(db, layers, Fetch(db, layers, t).0)
    decreases |layers|
  {
    FetchReads(db, layers, t);
    if layers != [] && t !in Top(layers).cache {
      FetchKeepsViews(db, Below(layers), t);
      var after := Fetch(db, layers, t).0;
      var below := Fetch(db, Below(layers), t).0;
      forall k, u | 0 <= k <= |layers|
        ensures View(db, layers[..k], u) == View(db, after[..k], u)
      {
        if k == |layers| {
          assert layers[..k] == layers && after[..k] == after;
        } else {
          assert layers[..k] == Below(layers)[..k] && after[..k] == below[..k];
        }
      }
    }
  }

  lemma ViewsOf(s: State, m: Maps, t: Txid)
    requires Agrees(s, m)
    ensures View(s.db, s.layers, t) == Stored(m[|m| - 1], t)
  {
    assert s.layers[..|s.layers|] == s.layers;
  }

  lemma ReadAgrees(s: State, m: Maps, t: Txid)
    requires Agrees(s, m) && s.layers != []
    ensures var (after, found) := Fetch(s.db, s.layers, t);
            && Agrees(s.(layers := after), m)
            && (if found.Some? then Norm(found.value) else None) == Stored(m[|m| - 1], t)
            && (CoinsStack.Have(found) <==> t in m[|m| - 1])
  {
    FetchReads(s.db, s.layers, t);
    FetchKeepsViews(s.db, s.layers, t);
    ViewsOf(s, m, t);
    var (after, found) := Fetch(s.db, s.layers, t);
    if found.Some? {
      CleanedIsClean(found.value);
    }
    forall k, u | 0 <= k < |m|
      ensures View(s.db, after[..k], u) == Stored(m[k], u)
    {
      assert View(s.db, s.layers[..k], u) == View(s.db, after[..k], u);
    }
  }

  lemma PutKeepsBelow(db: Database, layers: seq<Layer>, t: Txid, c: Coins)
    requires layers != [] && StackOk(db, layers)
    ensures SameViews(db, Below(layers), Below(Write(db, layers, t, c)))
  {
    var after := Write(db, layers, t, c);
    if t in Top(layers).cache {
      assert Below(after) == Below(layers);
    } else {
      FetchKeepsViews(db, Below(layers), t);
      assert Below(after) == Fetch(db, Below(layers), t).0;
    }
  }

  lemma PutAgrees(s: State, m: Maps, t: Txid, c: Coins)
    requires Agrees(s, m) && s.layers != []
    ensures Agrees(Step(s, Put(t, c)).0, PlainStep(m, Put(t, c)).0)
  {
    var after := Write(s.db, s.layers, t, c);
    var m' := PlainStep(m, Put(t, c)).0;
    WriteWrites(s.db, s.layers, t, c);
    PutKeepsBelow(s.db, s.layers, t, c);
    CleanedIsClean(c);
    forall k, u | 0 <= k < |m'|
      ensures View(s.db, after[..k], u) == Stored(m'[k], u)
    {
      if k == |s.layers| {
        assert after[..k] == after;
        ViewsOf(s, m, u);
      } else {
        assert s.layers[..k] == Below(s.layers)[..k] && after[..k] == Below(after)[..k];
        assert View(s.db, Below(s.layers)[..k], u) == View(s.db, Below(after)[..k], u);
      }
    }
  }

  lemma FlushAgrees(s: State, m: Maps)
    requires Agrees(s, m) && s.layers != []
    ensures Agrees(Step(s, FlushTop).0, PlainStep(m, FlushTop).0)
  {
    var n := |s.layers|;
    FlushFlushes(s.db, s.layers);
    var (db, after) := Flush(s.db, s.layers);
    var m' := PlainStep(m, FlushTop).0;
    forall k, u | 0 <= k < |m'|
      ensures View(db, after[..k], u) == Stored(m'[k], u)
    {
      ViewsOf(s, m, u);
      if k == n {
        assert after[..k] == after;
      } else if k == n - 1 {
        assert after[..k] == Below(after);
      } else {
        assert after[..k] == Below(Below(after))[..k] && s.layers[..k] == Below(Below(s.layers))[..k];
        assert View(s.db, s.layers[..k], u) == Stored(m[k], u);
      }
    }
  }

  lemma PushAgrees(s: State, m: Maps)
    requires Agrees(s, m)
    ensures Agrees(Step(s, Push).0, PlainStep(m, Push).0)
  {
    var after := s.layers + [Layer(map[], 0)];
    var m' := PlainStep(m, Push).0;
    assert Below(after) == s.layers;
    forall k, u | 0 <= k < |m'|
      ensures View(s.db, after[..k], u) == Stored(m'[k], u)
    {
      if k == |after| {
        assert after[..k] == after;
        ViewsOf(s, m, u);
      } else {
        assert after[..k] == s.layers[..k];
        assert View(s.db, s.layers[..k], u) == Stored(m[k], u);
      }
    }
  }

  lemma PopAgrees(s: State, m: Maps)
    requires Agrees(s, m) && s.layers != []
    ensures Agrees(Step(s, Pop).0, PlainStep(m, Pop).0)
  {
    var below := Below(s.layers);
    forall k, u | 0 <= k <= |below|
      ensures View(s.db, below[..k], u) == Stored(m[k], u)
    {
      assert below[..k] == s.layers[..k];
    }
  }

  /** Every operation answers as it does on plain maps and leaves every level reading as its map. */
  lemma StepAgrees(s: State, m: Maps, op: Op)
    requires Agrees(s, m)
    ensures Agrees(Step(s, op).0, PlainStep(m, op).0)
    ensures Step(s, op).1 == PlainStep(m, op).1
  {
    match op
    case Push => PushAgrees(s, m);
    case Get(t) => if s.layers != [] { ReadAgrees(s, m, t); }
    case Have(t) => if s.layers != [] { ReadAgrees(s, m, t); }
    case Put(t, c) => if s.layers != [] { PutAgrees(s, m, t, c); }
    case FlushTop => if s.layers != [] { FlushAgrees(s, m); }
    case Pop => if s.layers != [] { PopAgrees(s, m); }
  }

  /** Every run answers as plain maps do. */
  lemma {:induction false} RunAgrees(s: State, m: Maps, ops: seq<Op>)
    requires Agrees(s, m)
    ensures Agrees(Run(s, ops).0, PlainRun(m, ops).0)
    ensures Run(s, ops).1 == PlainRun(m, ops).1
    decreases |ops|
  {
    if ops != [] {
      StepAgrees(s, m, ops[0]);
      RunAgrees(Step(s, ops[0]).0, PlainStep(m, ops[0]).0, ops[1..]);
    }
  }

  /** The map a database stands for. */
  function Unpruned(db: Database): map<Txid, Coins> {
    map t | t in db.coins && !IsPruned(db.coins[t]) :: db.coins[t]
  }

  /** From any database of cleaned-up coins, every run of a stack built on it answers as plain maps
      do, and no flush on the way trips the assertion in BatchWrite. */
  lemma RunsFromDatabase(db: Database, ops: seq<Op>)
    requires DatabaseOk(db)
    ensures Run(State(db, []), ops).1 == PlainRun([Unpruned(db)], ops).1
    ensures var s := Run(State(db, []), ops).0; s.layers != [] ==> FlushAllowed(s.layers)
  {
    var s := State(db, []);
    assert s.layers[..0] == [];
    RunAgrees(s, [Unpruned(db)], ops);
    var s' := Run(s, ops).0;
    if s'.layers != [] {
      FlushFlushes(s'.db, s'.layers);
    }
  }

  // ---------------------------------------------------------------------------------------
  // The best block

  /** GetBestBlock: the top hash that is set, else the database's. */
  function BestBlock(db: Database, layers: seq<Layer>): Hash {
    if layers == [] then db.bestBlock
    else if Top(layers).hashBlock != 0 then Top(layers).hashBlock
    else BestBlock(db, Below(layers))
  }

  /** Flush hands the parent the child's own hash, set or not; the database keeps its own if that is not set. */
  lemma FlushedBestBlock(db: Database, layers: seq<Layer>)
    requires layers != []
    ensures var (db', after) := Flush(db, layers);
            BestBlock(db', Below(after))
            == if Top(layers).hashBlock != 0 then Top(layers).hashBlock
               else if |layers| == 1 then db.bestBlock
               else BestBlock(db, Below(Below(layers)))
  {
    var (db', after) := Flush(db, layers);
    if |layers| == 1 {
      assert Below(after) == [] && Below(layers) == [];
    } else {
      var below := Below(layers);
      var merged := Layer(Merge(Top(below).cache, Top(layers).cache), Top(layers).hashBlock);
      assert Below(after) == Below(below) + [merged];
      assert Below(Below(after)) == Below(below);
    }
  }

  /** So the parent then reports the best block the child reported exactly if that hash was set, or the parent is the
      database, or forgetting the parent's own hash makes no difference. */
  lemma FlushPassesBestBlock(db: Database, layers: seq<Layer>)
    requires layers != []
    ensures var (db', after) := Flush(db, layers);
            BestBlock(db', Below(after)) == BestBlock(db, layers)
            <==> (|| Top(layers).hashBlock != 0
                  || |layers| == 1
                  || Top(Below(layers)).hashBlock in {0, BestBlock(db, Below(Below(layers)))})
  {
    hide Flush;
    FlushedBestBlock(db, layers);
  }

  /** A child that was never asked for its best block takes the parent's away: the parent then reports the
      database's. */
  lemma BestBlockForgotten()
    ensures var db, layers := Database(map[], 1), [Layer(map[], 7), Layer(map[], 0)];
            var (db', after) := Flush(db, layers);
            BestBlock(db, layers) == 7 && BestBlock(db', Below(after)) == 1
  {
    hide Flush;
    var layers := [Layer(map[], 7), Layer(map[], 0)];
    FlushedBestBlock(Database(map[], 1), layers);
    assert Below(layers) == [Layer(map[], 7)] && Below(Below(layers)) == [];
  }
}
