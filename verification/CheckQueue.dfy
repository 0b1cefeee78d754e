/** The critical sections of the parallel check queue (src/checkqueue.h): what a thread does between taking
    and releasing the mutex, as functions on the shared fields, and the class whose methods do it.
    CheckQueueRuns.dfy has the threads.
*/
module CheckQueue {
  import opened Collections
  import opened Radix

  /** The fields of CCheckQueue that the mutex protects. */
  datatype Shared<T> = Shared(queue: seq<T>, nIdle: int, nTotal: int, fAllOk: bool, nTodo: int)

  function Initial<T>(): Shared<T> {
    Shared([], 0, 0, true, 0)
  }

  /** How a critical section of Loop ends: with checks to run, in cond.wait, or returning. */
  datatype Outcome<T> = Batch(checks: seq<T>, fOk: bool) | Sleep | Return(fRet: bool)

  /** Reporting a batch of which the results are in. */
  function Report<T>(q: Shared<T>, nNow: nat, fOk: bool): Shared<T> {
    q.(fAllOk := q.fAllOk && fOk, nTodo := q.nTodo - nNow)
  }

  function Arrive<T>(q: Shared<T>): Shared<T> {
    q.(nTotal := q.nTotal + 1)
  }

  function Awake<T>(q: Shared<T>): Shared<T> {
    q.(nIdle := q.nIdle - 1)
  }

  /** The number of checks a thread takes: never none, never more than there are. */
  function BatchSize<T>(q: Shared<T>, nBatchSize: nat): (n: nat)
    requires q.queue != [] && q.nTotal + q.nIdle + 1 > 0
    ensures 1 <= n <= |q.queue| && (n <= nBatchSize || n == 1)
  {
    ShareFits(|q.queue|, q.nTotal + q.nIdle + 1);
    var share := |q.queue| / (q.nTotal + q.nIdle + 1);
    var n := if share < nBatchSize then share else nBatchSize;
    if n < 1 then 1 else n
  }

  /** One, or the most that is within the batch size and lets each thread, and one more, have as many. */
  lemma BatchIsFair<T>(q: Shared<T>, nBatchSize: nat)
    requires q.queue != [] && q.nTotal + q.nIdle + 1 > 0
    ensures var n, d := BatchSize(q, nBatchSize), q.nTotal + q.nIdle + 1;
            && (n == 1 || (n <= nBatchSize && n * d <= |q.queue|))
            && (n + 1 <= nBatchSize ==> (n + 1) * d > |q.queue|)
  {
    var n, d := BatchSize(q, nBatchSize), q.nTotal + q.nIdle + 1;
    var share := |q.queue| / d;
    assert |q.queue| == d * share + |q.queue| % d;
    if n <= share {
      TimesMono(n, d, share, d);
    }
    if n + 1 <= nBatchSize {
      TimesMono(share + 1, d, n + 1, d);
    }
  }

  lemma ShareFits(n: nat, d: int)
    requires d > 0
    ensures 0 <= n / d <= n
  {
    var k := n / d;
    assert n == d * k + n % d;
    TimesMono(k, 1, k, d);
  }

  /** The inner loop of Loop, from its condition on: return, sleep, or take the youngest checks. */
  function Settle<T>(q: Shared<T>, fMaster: bool, nBatchSize: nat): (r: (Shared<T>, Outcome<T>))
    requires q.queue != [] ==> q.nTotal + q.nIdle + 1 > 0
  {
    if q.queue == [] then
      if fMaster && q.nTodo == 0
      then (q.(nTotal := q.nTotal - 1, fAllOk := true), Return(q.fAllOk))
      else (q.(nIdle := q.nIdle + 1), Sleep)
    else
      var n := BatchSize(q, nBatchSize);
      var rest := |q.queue| - n;
      (q.(queue := q.queue[..rest]), Batch(Reverse(q.queue[rest..]), q.fAllOk))
  }

  /** Taking checks loses none and duplicates none. */
  lemma SettleConserves<T>(q: Shared<T>, fMaster: bool, nBatchSize: nat)
    requires q.queue != [] && q.nTotal + q.nIdle + 1 > 0
    ensures var (r, outcome) := Settle(q, fMaster, nBatchSize);
            && outcome.Batch? && outcome.checks != [] && outcome.fOk == q.fAllOk
            && |q.queue| == |r.queue| + |outcome.checks|
            && multiset(q.queue) == multiset(r.queue) + multiset(outcome.checks)
            && r == q.(queue := r.queue)
  {
    var rest := |q.queue| - BatchSize(q, nBatchSize);
    ReverseIs(q.queue[rest..]);
    assert q.queue == q.queue[..rest] + q.queue[rest..];
  }

  // ---------------------------------------------------------------------------------------
  // The object

  class CCheckQueue<T(0, ==)> {
    var queue: seq<T>
    var nIdle: int
    var nTotal: int
    var fAllOk: bool
    var nTodo: int
    const nBatchSize: nat

    function Fields(): Shared<T>
      reads this
    {
      Shared(queue, nIdle, nTotal, fAllOk, nTodo)
    }

    constructor (nBatchSizeIn: nat)
      ensures Fields() == Initial() && nBatchSize == nBatchSizeIn
    {
      queue, nIdle, nTotal, fAllOk, nTodo := [], 0, 0, true, 0;
      nBatchSize := nBatchSizeIn;
    }

    /** A thread with a finished batch, or without one on its first iteration, takes the mutex. Says
        whether the master is to be notified. */
    method Enter(nNow: nat, fOk: bool, fMaster: bool) returns (outcome: Outcome<T>, notify: bool)
      requires nNow <= nTodo
      requires queue != [] ==> nTotal + nIdle + 1 > if nNow == 0 then -1 else 0
      modifies this
      ensures var q := if nNow > 0 then Report(old(Fields()), nNow, fOk) else Arrive(old(Fields()));
              && (Fields(), outcome) == Settle(q, fMaster, nBatchSize)
              && (notify <==> nNow > 0 && q.nTodo == 0 && !fMaster)
    {
      notify := false;
      if nNow > 0 {
        fAllOk := fAllOk && fOk;
        nTodo := nTodo - nNow;
        notify := nTodo == 0 && !fMaster;
      } else {
        nTotal := nTotal + 1;
      }
      outcome := Top(fMaster);
    }

    /** A thread comes back from cond.wait. */
    method Resume(fMaster: bool) returns (outcome: Outcome<T>)
      requires queue != [] ==> nTotal + nIdle > 0
      modifies this
      ensures (Fields(), outcome) == Settle(Awake(old(Fields())), fMaster, nBatchSize)
    {
      nIdle := nIdle - 1;
      outcome := Top(fMaster);
    }

    method Top(fMaster: bool) returns (outcome: Outcome<T>)
      requires queue != [] ==> nTotal + nIdle + 1 > 0
      modifies this
      ensures (Fields(), outcome) == Settle(old(Fields()), fMaster, nBatchSize)
    {
      hide BatchSize, Reverse;
      if queue == [] {
        if fMaster && nTodo == 0 {
          nTotal := nTotal - 1;
          outcome := Return(fAllOk);
          fAllOk := true;
          return;
        }
        nIdle := nIdle + 1;
        outcome := Sleep;
        return;
      }
      var nNow := BatchSize(Fields(), nBatchSize);
      var vChecks := TakeBack(nNow);
      outcome := Batch(vChecks, fAllOk);
    }

    /** The loop that swaps the last nNow checks out of the queue, last first. */
    method TakeBack(nNow: nat) returns (vChecks: seq<T>)
      requires nNow <= |queue|
      modifies this`queue
      ensures queue == old(queue)[..|old(queue)| - nNow]
      ensures vChecks == Reverse(old(queue)[|old(queue)| - nNow..])
    {
      ghost var start := queue;
      vChecks := [];
      for i := 0 to nNow
        invariant queue == start[..|start| - i] && |vChecks| == i
        invariant forall k :: 0 <= k < i ==> vChecks[k] == start[|start| - 1 - k]
      {
        vChecks := vChecks + [queue[|queue| - 1]];
        queue := queue[..|queue| - 1];
      }
      ReverseIs(start[|start| - nNow..]);
    }

    method Add(vChecks: seq<T>)
      modifies this
      ensures Fields() == old(Fields()).(queue := old(queue) + vChecks, nTodo := old(nTodo) + |vChecks|)
    {
      ghost var start := Fields();
      for i := 0 to |vChecks|
        invariant Fields() == start.(queue := start.queue + vChecks[..i])
      {
        queue := queue + [vChecks[i]];
        assert vChecks[..i + 1] == vChecks[..i] + [vChecks[i]];
      }
      assert vChecks[..|vChecks|] == vChecks;
      nTodo := nTodo + |vChecks|;
    }

    method IsIdle() returns (idle: bool)
      ensures idle <==> Idle(Fields())
    {
      idle := nTotal == nIdle && nTodo == 0 && fAllOk;
    }
  }

  predicate Idle<T>(q: Shared<T>) {
    q.nTotal == q.nIdle && q.nTodo == 0 && q.fAllOk
  }
}
