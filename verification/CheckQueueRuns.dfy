/** The threads of the parallel check queue (src/checkqueue.h) as a state machine: any number of workers
    and one master that adds checks and waits, under every interleaving of their critical sections.
    Thread 0 is the master. A condition variable may also wake a thread for no reason.
*/
module CheckQueueRuns {
  import opened Wrappers
  import opened CheckQueue
  import opened Collections

  /** Where a thread is. */
  datatype Local<T> =
    | Outside                                            // not in Loop
    | Entering                                           // in Loop, before its first critical section
    | Asleep                                             // in cond.wait
    | Woken                                              // notified, waiting for the mutex
    | Busy(left: seq<T>, nNow: nat, fOk: bool)           // running its batch, without the mutex

  /** A finished Wait: its result, the checks added since the one before, and what became of them. */
  datatype Round<T> = Round(fRet: bool, added: multiset<T>, passed: multiset<T>, failed: multiset<T>,
                            skipped: multiset<T>)

  /** The shared fields, the threads, whether the master has a CCheckQueueControl, the checks added since
      the last Wait and what has become of them, and the finished rounds. */
  datatype State<T> = State(shared: Shared<T>, threads: seq<Local<T>>, control: bool,
                            added: multiset<T>, passed: multiset<T>, failed: multiset<T>, skipped: multiset<T>,
                            rounds: seq<Round<T>>)

  datatype Step<T> =
    | Start(t: nat)                          // a worker thread begins
    | Construct                              // the master makes its control, asserting the queue idle
    | Add(checks: seq<T>, lucky: nat)        // the master adds checks; `lucky` is woken by notify_one
    | Wait                                   // the master begins to wait
    | Check(t: nat, passes: bool)            // a thread runs the next check of its batch, or skips it
    | Lock(t: nat)                           // a thread enters the critical section of Loop
    | Relock(t: nat)                         // a woken thread gets the mutex back
    | Spurious(t: nat)                       // a thread wakes for no reason

  function Begin<T>(n: nat): State<T> {
    State(Initial(), seq(n, i => Outside), false, multiset{}, multiset{}, multiset{}, multiset{}, [])
  }

  // ---------------------------------------------------------------------------------------
  // Steps

  predicate SomeAsleep<T>(ts: seq<Local<T>>) {
    exists w :: 1 <= w < |ts| && ts[w].Asleep?
  }

  /** The thread is where it can take the step. */
  predicate Possible<T>(s: State<T>, step: Step<T>) {
    match step
    case Start(t) => 0 < t < |s.threads| && s.threads[t].Outside?
    case Construct => 0 < |s.threads| && s.threads[0].Outside? && !s.control
    case Add(checks, lucky) =>
      && 0 < |s.threads| && s.threads[0].Outside? && s.control
      && (|checks| == 1 && SomeAsleep(s.threads) ==> 1 <= lucky < |s.threads| && s.threads[lucky].Asleep?)
    case Wait => 0 < |s.threads| && s.threads[0].Outside? && s.control
    case Check(t, _) => t < |s.threads| && s.threads[t].Busy? && s.threads[t].left != []
    case Lock(t) => t < |s.threads| && (s.threads[t].Entering? || (s.threads[t].Busy? && s.threads[t].left == []))
    case Relock(t) => t < |s.threads| && s.threads[t].Woken?
    case Spurious(t) => t < |s.threads| && s.threads[t].Asleep?
  }

  /** The shared fields when a thread comes to the inner loop of Loop. */
  function AtTop<T>(s: State<T>, step: Step<T>): Shared<T>
    requires Possible(s, step) && (step.Lock? || step.Relock?)
  {
    if step.Relock? then Awake(s.shared)
    else if s.threads[step.t].Busy? then Report(s.shared, s.threads[step.t].nNow, s.threads[step.t].fOk)
    else Arrive(s.shared)
  }

  /** The step violates nothing: the queue is idle for a new control, the unsigned nTodo does not
      underflow, and the divisor in the batch size is positive. */
  predicate Safe<T>(s: State<T>, step: Step<T>)
    requires Possible(s, step)
  {
    match step
    case Construct => Idle(s.shared)
    case Lock(t) =>
      var q := AtTop(s, step);
      0 <= q.nTodo && q.nTotal + q.nIdle + 1 > 0
    case Relock(t) =>
      var q := AtTop(s, step);
      q.nTotal + q.nIdle + 1 > 0
    case _ => true
  }

  function Wake<T>(l: Local<T>): Local<T> {
    if l.Asleep? then Woken else l
  }

  /** notify_one and notify_all on the workers' condition variable. */
  function Notified<T>(ts: seq<Local<T>>, n: nat, lucky: nat): (r: seq<Local<T>>)
    requires |ts| > 0
    ensures |r| == |ts| && r[0] == ts[0]
  {
    if n == 0 then ts
    else if n == 1 then (if 1 <= lucky < |ts| then ts[lucky := Wake(ts[lucky])] else ts)
    else [ts[0]] + seq(|ts| - 1, i requires 0 <= i < |ts| - 1 => Wake(ts[i + 1]))
  }

  /** The end of a critical section. */
  function Settled<T>(s: State<T>, t: nat, ts: seq<Local<T>>, q: Shared<T>, outcome: Outcome<T>): State<T>
    requires t < |ts|
  {
    match outcome
    case Batch(checks, fOk) => s.(shared := q, threads := ts[t := Busy(checks, |checks|, fOk)])
    case Sleep => s.(shared := q, threads := ts[t := Asleep])
    case Return(fRet) =>
      s.(shared := q, threads := ts[t := Outside], control := false,
         added := multiset{}, passed := multiset{}, failed := multiset{}, skipped := multiset{},
         rounds := s.rounds + [Round(fRet, s.added, s.passed, s.failed, s.skipped)])
  }

  /** One iteration of the loop over the batch: fOk becomes the result, unless it is false already. */
  function Checked<T>(s: State<T>, t: nat, passes: bool): State<T>
    requires t < |s.threads| && s.threads[t].Busy? && s.threads[t].left != []
  {
    var l := s.threads[t];
    var x := multiset{l.left[0]};
    var ts := s.threads[t := Busy(l.left[1..], l.nNow, l.fOk && passes)];
    if !l.fOk then s.(threads := ts, skipped := s.skipped + x)
    else if passes then s.(threads := ts, passed := s.passed + x)
    else s.(threads := ts, failed := s.failed + x)
  }

  function Next<T>(s: State<T>, step: Step<T>, nBatchSize: nat): State<T>
    requires Possible(s, step) && Safe(s, step)
  {
    match step
    case Start(t) => s.(threads := s.threads[t := Entering])
    case Construct => s.(control := true)
    case Add(checks, lucky) =>
      s.(shared := s.shared.(queue := s.shared.queue + checks, nTodo := s.shared.nTodo + |checks|),
         threads := Notified(s.threads, |checks|, lucky),
         added := s.added + multiset(checks))
    case Wait => s.(threads := s.threads[0 := Entering])
    case Check(t, passes) => Checked(s, t, passes)
    case Lock(t) =>
      var q := AtTop(s, step);
      var (r, outcome) := Settle(q, t == 0, nBatchSize);
      var ts := if s.threads[t].Busy? && q.nTodo == 0 && t != 0
                then s.threads[0 := Wake(s.threads[0])] else s.threads;
      Settled(s, t, ts, r, outcome)
    case Relock(t) =>
      var (r, outcome) := Settle(AtTop(s, step), t == 0, nBatchSize);
      Settled(s, t, s.threads, r, outcome)
    case Spurious(t) => s.(threads := s.threads[t := Woken])
  }

  /** Adding one check wakes one of the sleeping workers, if there are any; adding more wakes all of them. */
  lemma AddWakes<T>(s: State<T>, checks: seq<T>, lucky: nat, nBatchSize: nat)
    requires Possible(s, Add(checks, lucky))
    ensures var t := Next(s, Add(checks, lucky), nBatchSize);
            && |t.threads| == |s.threads| && t.threads[0] == s.threads[0]
            && t.shared.queue == s.shared.queue + checks
            && (|checks| == 0 ==> t.threads == s.threads)
            && (|checks| == 1 && (exists w :: 1 <= w < |s.threads| && s.threads[w].Asleep?) ==>
                  exists w :: 1 <= w < |s.threads| && s.threads[w].Asleep? && t.threads == s.threads[w := Woken])
            && (|checks| > 1 ==> forall w :: 1 <= w < |s.threads| ==>
                  t.threads[w] == if s.threads[w].Asleep? then Woken else s.threads[w])
  {
    hide Settle, Settled, Checked, AtTop, Notified;
    NotifiedIs(s.threads, |checks|, lucky);
  }

  lemma NotifiedIs<T>(ts: seq<Local<T>>, n: nat, lucky: nat)
    requires |ts| > 0 && (n == 1 && SomeAsleep(ts) ==> 1 <= lucky < |ts| && ts[lucky].Asleep?)
    ensures var us := Notified(ts, n, lucky);
            && (n == 0 ==> us == ts)
            && (n == 1 && (exists w :: 1 <= w < |ts| && ts[w].Asleep?) ==>
                  exists w :: 1 <= w < |ts| && ts[w].Asleep? && us == ts[w := Woken])
            && (n > 1 ==> forall w :: 1 <= w < |ts| ==> us[w] == if ts[w].Asleep? then Woken else ts[w])
  {
    hide Notified;
    if n == 0 {
      NoneNotified(ts, lucky);
    }
    if n == 1 {
      if SomeAsleep(ts) {
        OneNotified(ts, lucky);
      }
    } else if n > 1 {
      AllNotified(ts, n, lucky);
    }
  }

  lemma NoneNotified<T>(ts: seq<Local<T>>, lucky: nat)
    requires |ts| > 0
    ensures Notified(ts, 0, lucky) == ts
  {
  }

  lemma OneNotified<T>(ts: seq<Local<T>>, lucky: nat)
    requires |ts| > 0
    ensures Notified(ts, 1, lucky) == if 1 <= lucky < |ts| then ts[lucky := Wake(ts[lucky])] else ts
  {
  }

  lemma AllNotified<T>(ts: seq<Local<T>>, n: nat, lucky: nat)
    requires |ts| > 0 && n > 1
    ensures forall w :: 1 <= w < |ts| ==> Notified(ts, n, lucky)[w] == Wake(ts[w])
  {
    hide Wake;
  }

  // ---------------------------------------------------------------------------------------
  // Sums over the threads

  /** What a thread counts for: checks of its batch that are not reported, threads in Loop, threads in
      cond.wait, and a measure of the work it has left. */
  function Size<T>(l: Local<T>): nat {
    if l.Busy? then l.nNow else 0
  }

  function InLoop<T>(l: Local<T>): nat {
    if l.Asleep? || l.Woken? || l.Busy? then 1 else 0
  }

  function InWait<T>(l: Local<T>): nat {
    if l.Asleep? || l.Woken? then 1 else 0
  }

  function Load<T>(l: Local<T>): nat {
    if l.Busy? then |l.left| + 2 else if l.Entering? || l.Woken? then 1 else 0
  }

  function Sizes<T>(ts: seq<Local<T>>): nat {
    if ts == [] then 0 else Size(ts[0]) + Sizes(ts[1..])
  }

  function Loops<T>(ts: seq<Local<T>>): nat {
    if ts == [] then 0 else InLoop(ts[0]) + Loops(ts[1..])
  }

  function Waits<T>(ts: seq<Local<T>>): nat {
    if ts == [] then 0 else InWait(ts[0]) + Waits(ts[1..])
  }

  function Loads<T>(ts: seq<Local<T>>): nat {
    if ts == [] then 0 else Load(ts[0]) + Loads(ts[1..])
  }

  function Pool<T>(ts: seq<Local<T>>): multiset<T> {
    if ts == [] then multiset{} else Left(ts[0]) + Pool(ts[1..])
  }

  function Left<T>(l: Local<T>): multiset<T> {
    if l.Busy? then multiset(l.left) else multiset{}
  }

  lemma {:induction false} SumUpdate<T>(ts: seq<Local<T>>, i: nat, l: Local<T>)
    requires i < |ts|
    ensures Sizes(ts[i := l]) + Size(ts[i]) == Sizes(ts) + Size(l)
    ensures Loops(ts[i := l]) + InLoop(ts[i]) == Loops(ts) + InLoop(l)
    ensures Waits(ts[i := l]) + InWait(ts[i]) == Waits(ts) + InWait(l)
    ensures Loads(ts[i := l]) + Load(ts[i]) == Loads(ts) + Load(l)
  {
    if i == 0 {
      assert ts[0 := l][1..] == ts[1..];
    } else {
      assert ts[i := l][1..] == ts[1..][i - 1 := l];
      SumUpdate(ts[1..], i - 1, l);
    }
  }

  lemma Regroup<T>(a: multiset<T>, b: multiset<T>, c: multiset<T>)
    ensures (a + b) + c == a + (b + c) == (c + b) + a
  {
  }

  lemma {:induction false} PoolUpdate<T>(ts: seq<Local<T>>, i: nat, l: Local<T>)
    requires i < |ts|
    ensures Pool(ts[i := l]) + Left(ts[i]) == Pool(ts) + Left(l)
  {
    if i == 0 {
      assert ts[0 := l][1..] == ts[1..];
      Regroup(Left(l), Pool(ts[1..]), Left(ts[0]));
    } else {
      var rest := ts[1..][i - 1 := l];
      assert ts[i := l][1..] == rest;
      PoolUpdate(ts[1..], i - 1, l);
      Regroup(Left(ts[0]), Pool(rest), Left(ts[i]));
      Regroup(Left(ts[0]), Pool(ts[1..]), Left(l));
    }
  }

  /** Two threads without checks that count the same but for the work. */
  predicate Alike<T>(a: Local<T>, b: Local<T>) {
    !a.Busy? && !b.Busy? && InLoop(a) == InLoop(b) && InWait(a) == InWait(b)
  }

  /** A thread without checks that gets some. */
  lemma PoolTake<T>(ts: seq<Local<T>>, t: nat, l: Local<T>)
    requires t < |ts| && Left(ts[t]) == multiset{}
    ensures Pool(ts[t := l]) == Pool(ts) + Left(l)
  {
    PoolUpdate(ts, t, l);
  }

  lemma {:induction false} SumSame<T>(ts: seq<Local<T>>, us: seq<Local<T>>)
    requires |ts| == |us| && forall i :: 0 <= i < |ts| ==> ts[i] == us[i] || Alike(ts[i], us[i])
    ensures Sizes(ts) == Sizes(us) && Loops(ts) == Loops(us) && Waits(ts) == Waits(us) && Pool(ts) == Pool(us)
  {
    if ts != [] {
      SumSame(ts[1..], us[1..]);
    }
  }

  /** One thread's batch is at most the sum. */
  lemma {:induction false} SumAtLeast<T>(ts: seq<Local<T>>, i: nat)
    requires i < |ts|
    ensures Size(ts[i]) <= Sizes(ts)
  {
    if i > 0 {
      SumAtLeast(ts[1..], i - 1);
    }
  }

  lemma {:induction false} SumWitness<T>(ts: seq<Local<T>>) returns (i: nat)
    requires Sizes(ts) > 0
    ensures i < |ts| && ts[i].Busy?
  {
    if ts[0].Busy? {
      i := 0;
    } else {
      var j := SumWitness(ts[1..]);
      i := j + 1;
    }
  }

  lemma {:induction false} NoneLeft<T>(ts: seq<Local<T>>)
    requires forall i :: 0 <= i < |ts| ==> !ts[i].Busy?
    ensures Pool(ts) == multiset{}
  {
    if ts != [] {
      NoneLeft(ts[1..]);
    }
  }

  // ---------------------------------------------------------------------------------------
  // The invariant

  predicate BatchOk<T>(l: Local<T>) {
    l.Busy? ==> 1 <= l.nNow && |l.left| <= l.nNow
  }

  predicate AllOk<T>(s: State<T>) {
    s.shared.fAllOk && forall i :: 0 <= i < |s.threads| && s.threads[i].Busy? ==> s.threads[i].fOk
  }

  /** The counters count: checks not finished, threads in Loop, threads in cond.wait. */
  predicate Counts<T>(s: State<T>) {
    && s.shared.nTodo == |s.shared.queue| + Sizes(s.threads)
    && s.shared.nTotal == Loops(s.threads)
    && s.shared.nIdle == Waits(s.threads)
  }

  predicate Adds<T>(added: multiset<T>, queued: multiset<T>, pool: multiset<T>,
                    passed: multiset<T>, failed: multiset<T>, skipped: multiset<T>) {
    added == queued + pool + passed + failed + skipped
  }

  /** No check is lost or made up. */
  predicate Conserved<T>(s: State<T>) {
    Adds(s.added, multiset(s.shared.queue), Pool(s.threads), s.passed, s.failed, s.skipped)
  }

  /** A failure is remembered until the master hears of it, and a check is skipped only after one. */
  predicate Remembered<T>(s: State<T>) {
    && (AllOk(s) <==> s.failed == multiset{})
    && (s.failed == multiset{} ==> s.skipped == multiset{})
  }

  /** The master sleeps only for checks that others have; without a control nothing is going on. */
  predicate MasterOk<T>(s: State<T>) {
    && |s.threads| > 0
    && (s.threads[0].Asleep? ==> s.shared.queue == [] && s.shared.nTodo > 0)
    && (!s.control ==> s.threads[0].Outside? && s.added == multiset{} && s.shared.nTodo == 0)
  }

  /** Wait answered whether all checks of its round were run and returned true. */
  predicate RoundOk<T>(r: Round<T>) {
    && r.added == r.passed + r.failed + r.skipped
    && (r.fRet <==> r.passed == r.added)
  }

  predicate RoundsOk<T>(s: State<T>) {
    forall i :: 0 <= i < |s.rounds| ==> RoundOk(s.rounds[i])
  }

  predicate Inv<T>(s: State<T>) {
    && Counts(s) && Conserved(s) && Remembered(s) && MasterOk(s) && RoundsOk(s)
    && forall i :: 0 <= i < |s.threads| ==> BatchOk(s.threads[i])
  }

  lemma BeginOk<T>(n: nat)
    requires n > 0
    ensures Inv(Begin<T>(n))
  {
    var ts := Begin<T>(n).threads;
    AllOutside(ts);
    NoneLeft(ts);
  }

  lemma {:induction false} AllOutside<T>(ts: seq<Local<T>>)
    requires forall i :: 0 <= i < |ts| ==> ts[i].Outside?
    ensures Sizes(ts) == Loops(ts) == Waits(ts) == 0
  {
    if ts != [] {
      AllOutside(ts[1..]);
    }
  }

  lemma AlikeThreads<T>(s: State<T>, u: State<T>)
    requires Inv(s) && |u.threads| == |s.threads|
    requires forall i :: 0 <= i < |s.threads| ==> s.threads[i] == u.threads[i] || Alike(s.threads[i], u.threads[i])
    requires u == s.(threads := u.threads, control := u.control) && MasterOk(u)
    ensures Inv(u)
  {
    SumSame(s.threads, u.threads);
    AlikeAllOk(s, u);
    hide AllOk, Adds, Sizes, Loops, Waits, Pool;
  }

  lemma AlikeAllOk<T>(s: State<T>, u: State<T>)
    requires |u.threads| == |s.threads| && u.shared == s.shared
    requires forall i :: 0 <= i < |s.threads| ==> s.threads[i] == u.threads[i] || Alike(s.threads[i], u.threads[i])
    ensures AllOk(u) <==> AllOk(s)
  {
    forall i | 0 <= i < |s.threads|
      ensures s.threads[i].Busy? <==> u.threads[i].Busy?
      ensures s.threads[i].Busy? ==> s.threads[i] == u.threads[i]
    {
    }
  }

  lemma AddOk<T>(s: State<T>, step: Step<T>, nBatchSize: nat)
    requires Inv(s) && step.Add? && Possible(s, step)
    ensures Inv(Next(s, step, nBatchSize))
  {
    hide Counts, Conserved, Remembered, RoundsOk, Notified, Alike, AllOk, Adds, Settle, Settled, Checked, AtTop;
    assert |s.threads| > 0 && s.threads[0].Outside? && s.control;
    NotifiedAlike(s.threads, |step.checks|, step.lucky);
    var v := s.(threads := Notified(s.threads, |step.checks|, step.lucky));
    AlikeThreads(s, v);
    QueuedOk(v, step.checks);
  }

  lemma NotifiedAlike<T>(ts: seq<Local<T>>, n: nat, lucky: nat)
    requires |ts| > 0
    ensures var us := Notified(ts, n, lucky);
            |us| == |ts| && forall i :: 0 <= i < |ts| ==> ts[i] == us[i] || Alike(ts[i], us[i])
  {
    hide Notified, Alike, Wake;
    if n == 0 {
      NoneNotified(ts, lucky);
    } else if n == 1 {
      OneNotified(ts, lucky);
    } else {
      AllNotified(ts, n, lucky);
    }
    forall i | 0 <= i < |ts|
      ensures Wake(ts[i]) == ts[i] || Alike(ts[i], Wake(ts[i]))
    {
      WakeAlike(ts[i]);
    }
  }

  lemma WakeAlike<T>(l: Local<T>)
    ensures Wake(l) == l || Alike(l, Wake(l))
  {
  }

  lemma QueuedOk<T>(s: State<T>, checks: seq<T>)
    requires Inv(s) && s.threads[0].Outside? && s.control
    ensures Inv(s.(shared := s.shared.(queue := s.shared.queue + checks, nTodo := s.shared.nTodo + |checks|),
                   added := s.added + multiset(checks)))
  {
    var u := s.(shared := s.shared.(queue := s.shared.queue + checks, nTodo := s.shared.nTodo + |checks|),
                added := s.added + multiset(checks));
    assert AllOk(s) <==> AllOk(u);
    hide Adds, AllOk, Pool, Sizes, Loops, Waits;
    assert multiset(u.shared.queue) == multiset(s.shared.queue) + multiset(checks);
    AddsMore(s.added, multiset(s.shared.queue), Pool(s.threads), s.passed, s.failed, s.skipped, multiset(checks));
  }

  lemma AddsMore<T>(added: multiset<T>, q: multiset<T>, p: multiset<T>, a: multiset<T>, b: multiset<T>,
                    c: multiset<T>, x: multiset<T>)
    requires Adds(added, q, p, a, b, c)
    ensures Adds(added + x, q + x, p, a, b, c)
  {
  }

  lemma AddsRun<T>(added: multiset<T>, q: multiset<T>, p: multiset<T>, a: multiset<T>, b: multiset<T>,
                   c: multiset<T>, x: multiset<T>)
    requires Adds(added, q, p + x, a, b, c)
    ensures Adds(added, q, p, a + x, b, c) && Adds(added, q, p, a, b + x, c) && Adds(added, q, p, a, b, c + x)
  {
  }

  lemma AddsTake<T>(added: multiset<T>, q: multiset<T>, p: multiset<T>, a: multiset<T>, b: multiset<T>,
                    c: multiset<T>, x: multiset<T>)
    requires Adds(added, q + x, p, a, b, c)
    ensures Adds(added, q, p + x, a, b, c)
  {
  }

  lemma CheckOk<T>(s: State<T>, t: nat, passes: bool)
    requires Inv(s) && t < |s.threads| && s.threads[t].Busy? && s.threads[t].left != []
    ensures Inv(Checked(s, t, passes))
  {
    hide Conserved, Remembered;
    var u := Checked(s, t, passes);
    SumUpdate(s.threads, t, u.threads[t]);
    CheckConserves(s, t, passes);
    CheckRemembers(s, t, passes);
  }

  lemma CheckConserves<T>(s: State<T>, t: nat, passes: bool)
    requires Conserved(s) && t < |s.threads| && s.threads[t].Busy? && s.threads[t].left != []
    ensures Conserved(Checked(s, t, passes))
  {
    hide Adds;
    var l, u := s.threads[t], Checked(s, t, passes);
    var x := multiset{l.left[0]};
    PoolRun(s.threads, t, u.threads[t], x);
    AddsRun(s.added, multiset(s.shared.queue), Pool(u.threads), s.passed, s.failed, s.skipped, x);
  }

  lemma PoolRun<T>(ts: seq<Local<T>>, t: nat, l: Local<T>, x: multiset<T>)
    requires t < |ts| && ts[t].Busy? && ts[t].left != [] && l.Busy? && l.left == ts[t].left[1..]
    requires x == multiset{ts[t].left[0]}
    ensures Pool(ts) == Pool(ts[t := l]) + x
  {
    hide Pool;
    PoolUpdate(ts, t, l);
    assert ts[t].left == [ts[t].left[0]] + l.left;
    assert Left(ts[t]) == x + Left(l);
    Regroup(Pool(ts[t := l]), x, Left(l));
    Cancel(Pool(ts[t := l]) + x, Pool(ts), Left(l));
  }

  lemma Cancel<T>(a: multiset<T>, b: multiset<T>, c: multiset<T>)
    requires a + c == b + c
    ensures a == b
  {
    assert a == (a + c) - c;
    assert b == (b + c) - c;
  }

  lemma CheckRemembers<T>(s: State<T>, t: nat, passes: bool)
    requires Remembered(s) && t < |s.threads| && s.threads[t].Busy? && s.threads[t].left != []
    ensures Remembered(Checked(s, t, passes))
  {
    var l, u := s.threads[t], Checked(s, t, passes);
    assert u.threads[t].Busy?;
    if l.fOk && passes {
      MovedFailure(s, u, t, u.threads[t]);
    } else if !l.fOk {
      assert !AllOk(s);
    }
  }

  /** What one thread knows of failures can move to the shared flag, or back. */
  lemma MovedFailure<T>(v: State<T>, u: State<T>, t: nat, l: Local<T>)
    requires t < |v.threads| && u.threads == v.threads[t := l]
    requires (u.shared.fAllOk && (l.Busy? ==> l.fOk))
             == (v.shared.fAllOk && (v.threads[t].Busy? ==> v.threads[t].fOk))
    ensures AllOk(u) <==> AllOk(v)
  {
    assert v.threads == u.threads[t := v.threads[t]];
    MovedFailureBack(v, u, t, l);
    MovedFailureBack(u, v, t, v.threads[t]);
  }

  lemma MovedFailureBack<T>(v: State<T>, u: State<T>, t: nat, l: Local<T>)
    requires t < |v.threads| && u.threads == v.threads[t := l]
    requires (u.shared.fAllOk && (l.Busy? ==> l.fOk))
             == (v.shared.fAllOk && (v.threads[t].Busy? ==> v.threads[t].fOk))
    ensures AllOk(u) ==> AllOk(v)
  {
    if AllOk(u) {
      assert u.threads[t] == l;
      forall i | 0 <= i < |v.threads| && v.threads[i].Busy?
        ensures v.threads[i].fOk
      {
        assert i != t ==> u.threads[i] == v.threads[i];
      }
    }
  }

  // ---------------------------------------------------------------------------------------
  // Critical sections of Loop

  /** A thread at the inner loop, holding the mutex: in Loop, not waiting, without checks. */
  function AtTopLocal<T>(): Local<T> {
    Busy([], 0, true)
  }

  predicate Mid<T>(s: State<T>, t: nat) {
    && Counts(s) && Conserved(s) && Remembered(s) && MasterOk(s) && RoundsOk(s)
    && t < |s.threads| && s.threads[t] == AtTopLocal()
    && forall i :: 0 <= i < |s.threads| && i != t ==> BatchOk(s.threads[i])
  }

  /** The state when a thread comes to the inner loop. */
  function TopState<T>(s: State<T>, step: Step<T>): State<T>
    requires Possible(s, step) && (step.Lock? || step.Relock?)
  {
    var q := AtTop(s, step);
    var ts := if step.Lock? && s.threads[step.t].Busy? && q.nTodo == 0 && step.t != 0
              then s.threads[0 := Wake(s.threads[0])] else s.threads;
    s.(shared := q, threads := ts[step.t := AtTopLocal()])
  }

  /** A woken master, or none. */
  lemma WakeMaster<T>(s: State<T>)
    requires Inv(s)
    ensures Inv(s.(threads := s.threads[0 := Wake(s.threads[0])]))
  {
    AlikeThreads(s, s.(threads := s.threads[0 := Wake(s.threads[0])]));
  }

  /** A thread comes to the inner loop; q is what it has made of the shared fields. */
  lemma ComesTop<T>(s: State<T>, t: nat, q: Shared<T>)
    requires Inv(s) && t < |s.threads|
    requires match s.threads[t]
             case Entering => q == Arrive(s.shared)
             case Woken => q == Awake(s.shared)
             case Busy(left, nNow, fOk) => left == [] && q == Report(s.shared, nNow, fOk)
             case _ => false
    requires s.threads[0].Asleep? ==> q.nTodo > 0
    ensures Mid(s.(shared := q, threads := s.threads[t := AtTopLocal()]), t)
  {
    hide AllOk, Adds, Pool, Sizes, Loops, Waits;
    SumUpdate(s.threads, t, AtTopLocal());
    PoolTake(s.threads, t, AtTopLocal());
    assert Pool(s.threads[t := AtTopLocal()]) == Pool(s.threads);
    SumAtLeast(s.threads, t);
    MovedFailure(s, s.(shared := q, threads := s.threads[t := AtTopLocal()]), t, AtTopLocal());
  }

  lemma TodoLeft<T>(s: State<T>, t: nat)
    requires Inv(s) && t < |s.threads|
    ensures Size(s.threads[t]) <= s.shared.nTodo
  {
    SumAtLeast(s.threads, t);
  }

  lemma TopOk<T>(s: State<T>, step: Step<T>)
    requires Inv(s) && Possible(s, step) && (step.Lock? || step.Relock?)
    ensures Mid(TopState(s, step), step.t)
  {
    hide Counts, Conserved, Remembered, RoundsOk;
    var t, q := step.t, AtTop(s, step);
    if step.Lock? && s.threads[t].Busy? {
      WakeMaster(s);
      TodoLeft(s, t);
      var v := if q.nTodo == 0 && t != 0 then s.(threads := s.threads[0 := Wake(s.threads[0])]) else s;
      ComesTop(v, t, q);
    } else {
      ComesTop(s, t, q);
    }
  }

  /** At the inner loop the divisor is positive: the thread itself is counted. */
  lemma MidSafe<T>(s: State<T>, t: nat)
    requires Mid(s, t)
    ensures 0 <= s.shared.nTodo && s.shared.nTotal + s.shared.nIdle + 1 > 0
    ensures t < |s.threads| && s.threads[t] == AtTopLocal()
  {
  }

  /** The inner loop leads back to the invariant, whichever way it ends. */
  lemma SettleOk<T>(s: State<T>, t: nat, nBatchSize: nat)
    requires Mid(s, t)
    ensures var (r, outcome) := Settle(s.shared, t == 0, nBatchSize);
            Inv(Settled(s, t, s.threads, r, outcome))
  {
    var (r, outcome) := Settle(s.shared, t == 0, nBatchSize);
    match outcome
    case Batch(checks, fOk) => BatchKeeps(s, t, nBatchSize);
    case Sleep => SleepKeeps(s, t, nBatchSize);
    case Return(fRet) => ReturnKeeps(s, t, nBatchSize);
  }

  lemma BatchKeeps<T>(s: State<T>, t: nat, nBatchSize: nat)
    requires Mid(s, t) && s.shared.queue != []
    ensures var (r, outcome) := Settle(s.shared, t == 0, nBatchSize);
            outcome.Batch? && Inv(Settled(s, t, s.threads, r, outcome))
  {
    hide AllOk;
    hide Adds, Pool, Sizes, Loops, Waits, AllOk;
    SettleConserves(s.shared, t == 0, nBatchSize);
    hide Settle;
    var (r, outcome) := Settle(s.shared, t == 0, nBatchSize);
    var l := Busy(outcome.checks, |outcome.checks|, outcome.fOk);
    SumUpdate(s.threads, t, l);
    PoolTake(s.threads, t, l);
    var u := Settled(s, t, s.threads, r, outcome);
    AddsTake(s.added, multiset(r.queue), Pool(s.threads), s.passed, s.failed, s.skipped, multiset(outcome.checks));
    MovedFailure(s, u, t, l);
  }

  lemma SleepKeeps<T>(s: State<T>, t: nat, nBatchSize: nat)
    requires Mid(s, t) && s.shared.queue == [] && !(t == 0 && s.shared.nTodo == 0)
    ensures var (r, outcome) := Settle(s.shared, t == 0, nBatchSize);
            outcome.Sleep? && Inv(Settled(s, t, s.threads, r, outcome))
  {
    hide AllOk, Adds, Pool, Sizes, Loops, Waits;
    var (r, outcome) := Settle(s.shared, t == 0, nBatchSize);
    SumUpdate(s.threads, t, Asleep);
    PoolTake(s.threads, t, Asleep);
    assert Pool(s.threads[t := Asleep]) == Pool(s.threads);
    MovedFailure(s, Settled(s, t, s.threads, r, outcome), t, Asleep);
  }

  /** When the master returns, nobody has a check left, and the answer is right. */
  lemma ReturnKeeps<T>(s: State<T>, t: nat, nBatchSize: nat)
    requires Mid(s, t) && s.shared.queue == [] && t == 0 && s.shared.nTodo == 0
    ensures var (r, outcome) := Settle(s.shared, t == 0, nBatchSize);
            outcome.Return? && Inv(Settled(s, t, s.threads, r, outcome))
  {
    var (r, outcome) := Settle(s.shared, t == 0, nBatchSize);
    var u := Settled(s, t, s.threads, r, outcome);
    SumUpdate(s.threads, t, Outside);
    forall i | 0 <= i < |u.threads|
      ensures !u.threads[i].Busy?
    {
      SumAtLeast(u.threads, i);
    }
    NoneLeft(u.threads);
    assert Pool(s.threads) == multiset{} && s.added == s.passed + s.failed + s.skipped;
    assert AllOk(s) <==> s.shared.fAllOk;
    assert RoundOk(Round(s.shared.fAllOk, s.added, s.passed, s.failed, s.skipped));
  }

  // ---------------------------------------------------------------------------------------
  // Runs

  /** Every step that is possible is safe, and keeps the invariant. */
  lemma StepOk<T>(s: State<T>, step: Step<T>, nBatchSize: nat)
    requires Inv(s) && Possible(s, step)
    ensures Safe(s, step) && Inv(Next(s, step, nBatchSize))
  {
    match step
    case Start(t) => MoveOk(s, step, nBatchSize);
    case Construct => ControlIsIdle(s); ConstructOk(s);
    case Add(_, _) => AddOk(s, step, nBatchSize);
    case Wait => MoveOk(s, step, nBatchSize);
    case Check(t, passes) => CheckOk(s, t, passes);
    case Lock(_) => LockOk(s, step, nBatchSize);
    case Relock(_) => LockOk(s, step, nBatchSize);
    case Spurious(t) => MoveOk(s, step, nBatchSize);
  }

  /** A thread enters Loop, or wakes up. */
  lemma MoveOk<T>(s: State<T>, step: Step<T>, nBatchSize: nat)
    requires Inv(s) && Possible(s, step) && (step.Start? || step.Wait? || step.Spurious?)
    ensures Safe(s, step) && Inv(Next(s, step, nBatchSize))
  {
    hide Counts, Conserved, Remembered, RoundsOk;
    var u := Next(s, step, nBatchSize);
    var t := if step.Wait? then 0 else step.t;
    assert u == s.(threads := s.threads[t := u.threads[t]]);
    assert Alike(s.threads[t], u.threads[t]);
    AlikeThreads(s, u);
  }

  lemma ConstructOk<T>(s: State<T>)
    requires Inv(s)
    ensures Inv(s.(control := true))
  {
    assert AllOk(s) <==> AllOk(s.(control := true));
  }

  lemma LockOk<T>(s: State<T>, step: Step<T>, nBatchSize: nat)
    requires Inv(s) && Possible(s, step) && (step.Lock? || step.Relock?)
    ensures Safe(s, step) && Inv(Next(s, step, nBatchSize))
  {
    hide Inv, Mid, Settle, Settled;
    var u := TopState(s, step);
    TopOk(s, step);
    MidSafe(u, step.t);
    SettleOk(u, step.t, nBatchSize);
    FromTop(s, step, nBatchSize);
  }

  /** A critical section is: coming to the inner loop, and settling there. */
  lemma FromTop<T>(s: State<T>, step: Step<T>, nBatchSize: nat)
    requires Possible(s, step) && Safe(s, step) && (step.Lock? || step.Relock?)
    ensures var u := TopState(s, step);
            var (r, outcome) := Settle(u.shared, step.t == 0, nBatchSize);
            Next(s, step, nBatchSize) == Settled(u, step.t, u.threads, r, outcome)
  {
    hide Settle;
    var t := step.t;
    var ts := if step.Lock? && s.threads[t].Busy? && AtTop(s, step).nTodo == 0 && t != 0
              then s.threads[0 := Wake(s.threads[0])] else s.threads;
    var u := TopState(s, step);
    var (r, outcome) := Settle(u.shared, t == 0, nBatchSize);
    SettledOver(s, t, ts, u, r, outcome);
  }

  lemma SettledOver<T>(s: State<T>, t: nat, ts: seq<Local<T>>, u: State<T>, q: Shared<T>, outcome: Outcome<T>)
    requires t < |ts| && u == s.(shared := u.shared, threads := ts[t := AtTopLocal()])
    ensures Settled(s, t, ts, q, outcome) == Settled(u, t, u.threads, q, outcome)
  {
    var l := if outcome.Batch? then Busy(outcome.checks, |outcome.checks|, outcome.fOk)
             else if outcome.Sleep? then Asleep else Outside;
    assert ts[t := AtTopLocal()][t := l] == ts[t := l];
  }

  /** With controls used one at a time, the queue is idle when one is made: the assertion in the constructor
      of CCheckQueueControl holds. */
  lemma ControlIsIdle<T>(s: State<T>)
    requires Inv(s) && !s.control
    ensures Idle(s.shared)
  {
    assert s.failed == multiset{};
    NothingLeft(s);
    SizesLoopsWaits(s.threads);
  }

  /** When nothing is left to do, no thread has a batch. */
  lemma NothingLeft<T>(s: State<T>)
    requires Counts(s) && s.shared.nTodo == 0 && forall i :: 0 <= i < |s.threads| ==> BatchOk(s.threads[i])
    ensures s.shared.queue == [] && forall i :: 0 <= i < |s.threads| ==> !s.threads[i].Busy?
  {
    forall i | 0 <= i < |s.threads|
      ensures !s.threads[i].Busy?
    {
      SumAtLeast(s.threads, i);
    }
  }

  lemma {:induction false} SizesLoopsWaits<T>(ts: seq<Local<T>>)
    requires forall i :: 0 <= i < |ts| ==> !ts[i].Busy?
    ensures Loops(ts) == Waits(ts)
  {
    if ts != [] {
      SizesLoopsWaits(ts[1..]);
    }
  }

  /** The state at the end of a run of possible steps. That it is defined means that every step was safe. */
  ghost function Run<T>(n: nat, nBatchSize: nat, steps: seq<Step<T>>): (r: Option<State<T>>)
    requires n > 0
    ensures r.Some? ==> Inv(r.value)
  {
    BeginOk<T>(n);
    if steps == [] then Some(Begin(n))
    else
      match Run(n, nBatchSize, steps[..|steps| - 1])
      case None => None
      case Some(s) =>
        var step := steps[|steps| - 1];
        if Possible(s, step) then
          StepOk(s, step, nBatchSize);
          Some(Next(s, step, nBatchSize))
        else None
  }

  lemma RunMore<T>(n: nat, nBatchSize: nat, steps: seq<Step<T>>, step: Step<T>)
    requires n > 0 && Run(n, nBatchSize, steps).Some? && Possible(Run(n, nBatchSize, steps).value, step)
    ensures Safe(Run(n, nBatchSize, steps).value, step)
    ensures Run(n, nBatchSize, steps + [step]) == Some(Next(Run(n, nBatchSize, steps).value, step, nBatchSize))
  {
    hide Next, Possible, Safe, Inv;
    StepOk(Run(n, nBatchSize, steps).value, step, nBatchSize);
    assert (steps + [step])[..|steps|] == steps;
  }

  /** A run of the master alone: it makes its control, adds a check, waits, runs the check, and returns what the check
      did, with its control gone. */
  lemma OneRound<T>(x: T, passes: bool, nBatchSize: nat)
    ensures var r := Run(1, nBatchSize, [Construct, Add([x], 0), Wait, Lock(0), Check(0, passes), Lock(0)]);
            var (yes, no) := (multiset(if passes then [x] else []), multiset(if passes then [] else [x]));
            && r.Some? && r.value.threads == [Outside] && !r.value.control
            && r.value.rounds == [Round(passes, multiset{x}, yes, no, multiset{})]
  {
    hide Run, Inv, Next, Possible, Safe;
    var steps: seq<Step<T>> := [];
    BeginRun<T>(nBatchSize);
    var s := Begin<T>(1);
    for i := 0 to 6
      invariant |steps| == i && steps == RoundSteps(x, passes)[..i]
      invariant s == RoundState(x, passes, i) && Run(1, nBatchSize, steps) == Some(s)
    {
      RoundStep(x, passes, i, nBatchSize);
      RunMore(1, nBatchSize, steps, RoundSteps(x, passes)[i]);
      steps := steps + [RoundSteps(x, passes)[i]];
      s := RoundState(x, passes, i + 1);
    }
    assert steps == RoundSteps(x, passes);
    assert multiset([x]) == multiset{x};
  }

  function RoundSteps<T>(x: T, passes: bool): seq<Step<T>> {
    [Construct, Add([x], 0), Wait, Lock(0), Check(0, passes), Lock(0)]
  }

  /** The states of that run. */
  function RoundState<T>(x: T, passes: bool, i: nat): State<T> {
    var none: multiset<T> := multiset{};
    var (yes, no) := if passes then (multiset{x}, none) else (none, multiset{x});
    if i == 0 then State(Shared([], 0, 0, true, 0), [Outside], false, none, none, none, none, [])
    else if i == 1 then State(Shared([], 0, 0, true, 0), [Outside], true, none, none, none, none, [])
    else if i == 2 then State(Shared([x], 0, 0, true, 1), [Outside], true, multiset{x}, none, none, none, [])
    else if i == 3 then State(Shared([x], 0, 0, true, 1), [Entering], true, multiset{x}, none, none, none, [])
    else if i == 4 then
      State(Shared([], 0, 1, true, 1), [Busy([x], 1, true)], true, multiset{x}, none, none, none, [])
    else if i == 5 then
      State(Shared([], 0, 1, true, 1), [Busy([], 1, passes)], true, multiset{x}, yes, no, none, [])
    else State(Shared([], 0, 0, true, 0), [Outside], false, none, none, none, none,
               [Round(passes, multiset{x}, yes, no, none)])
  }

  lemma RoundStep<T>(x: T, passes: bool, i: nat, nBatchSize: nat)
    requires i < 6
    ensures var (s, step) := (RoundState(x, passes, i), RoundSteps(x, passes)[i]);
            Possible(s, step) && Safe(s, step) && Next(s, step, nBatchSize) == RoundState(x, passes, i + 1)
  {
    hide Settle, Settled, Checked, Notified, Next;
    match i
    case 0 => RoundBegins(x, passes, nBatchSize);
    case 1 => RoundAdds(x, passes, nBatchSize);
    case 2 => RoundWaits(x, passes, nBatchSize);
    case 3 => RoundTakes(x, passes, nBatchSize);
    case 4 => RoundChecks(x, passes, nBatchSize);
    case _ => RoundReturns(x, passes, nBatchSize);
  }

  lemma RoundBegins<T>(x: T, passes: bool, nBatchSize: nat)
    ensures Next(RoundState(x, passes, 0), Construct, nBatchSize) == RoundState(x, passes, 1)
  {
    hide Settle, Settled, Checked, Notified;
  }

  lemma RoundAdds<T>(x: T, passes: bool, nBatchSize: nat)
    ensures Next(RoundState(x, passes, 1), Add([x], 0), nBatchSize) == RoundState(x, passes, 2)
  {
    hide Settle, Settled, Checked;
    assert multiset([x]) == multiset{x};
  }

  lemma RoundWaits<T>(x: T, passes: bool, nBatchSize: nat)
    ensures Next(RoundState(x, passes, 2), Wait, nBatchSize) == RoundState(x, passes, 3)
  {
    hide Settle, Settled, Checked, Notified;
    var threads: seq<Local<T>> := [Outside];
    assert threads[0 := Entering] == [Entering];
  }

  lemma RoundTakes<T>(x: T, passes: bool, nBatchSize: nat)
    ensures Next(RoundState(x, passes, 3), Lock(0), nBatchSize) == RoundState(x, passes, 4)
  {
    hide Settle, Checked, Notified;
    TakesOnly(x, nBatchSize);
    assert [Entering][0 := Busy([x], 1, true)] == [Busy([x], 1, true)];
  }

  lemma TakesOnly<T>(x: T, nBatchSize: nat)
    ensures Settle(Shared([x], 0, 1, true, 1), true, nBatchSize) == (Shared([], 0, 1, true, 1), Batch([x], true))
  {
    hide BatchSize, Reverse;
    var q := Shared([x], 0, 1, true, 1);
    assert BatchSize(q, nBatchSize) == 1;
    ReverseIs([x]);
    assert Reverse([x]) == [x] && [x][..0] == [] && [x][0..] == [x];
  }

  lemma RoundChecks<T>(x: T, passes: bool, nBatchSize: nat)
    ensures Next(RoundState(x, passes, 4), Check(0, passes), nBatchSize) == RoundState(x, passes, 5)
  {
    hide Settle, Settled, Notified;
    assert [x][1..] == [];
    assert [Busy([x], 1, true)][0 := Busy([], 1, passes)] == [Busy([], 1, passes)];
  }

  lemma RoundReturns<T>(x: T, passes: bool, nBatchSize: nat)
    ensures Next(RoundState(x, passes, 5), Lock(0), nBatchSize) == RoundState(x, passes, 6)
  {
    hide Checked, Notified;
    var threads: seq<Local<T>> := [Busy([], 1, passes)];
    assert threads[0 := Outside] == [Outside];
  }

  lemma BeginRun<T>(nBatchSize: nat)
    ensures Run<T>(1, nBatchSize, []) == Some(Begin(1))
  {
  }

  /** The threads, of the first n, that hold a batch. */
  ghost function BusyBelow<T>(ts: seq<Local<T>>, n: nat): set<int> {
    set i | 0 <= i < n && i < |ts| && ts[i].Busy?
  }

  /** In every run: nTodo counts the queued checks and those in batches not yet reported; the difference of
      nTotal and nIdle is the number of threads that hold a batch; and every Wait that has returned said
      true exactly when all checks added in its round were run and returned true. */
  lemma AlwaysCounts<T>(n: nat, nBatchSize: nat, steps: seq<Step<T>>)
    requires n > 0 && Run(n, nBatchSize, steps).Some?
    ensures var s := Run(n, nBatchSize, steps).value;
            && s.shared.nTodo == |s.shared.queue| + Sizes(s.threads)
            && s.shared.nTotal - s.shared.nIdle == |BusyBelow(s.threads, |s.threads|)|
            && (forall i :: 0 <= i < |s.rounds| ==>
                  var r := s.rounds[i];
                  r.added == r.passed + r.failed + r.skipped && (r.fRet <==> r.passed == r.added))
  {
    hide Run;
    var s := Run(n, nBatchSize, steps).value;
    BusyThreads(s.threads, |s.threads|);
    assert s.threads[..|s.threads|] == s.threads;
  }

  lemma {:induction false} BusyThreads<T>(ts: seq<Local<T>>, n: nat)
    requires n <= |ts|
    ensures Loops(ts[..n]) - Waits(ts[..n]) == |BusyBelow(ts, n)|
  {
    if n > 0 {
      BusyThreads(ts, n - 1);
      assert ts[..n] == ts[..n - 1] + [ts[n - 1]];
      LoopsPlus(ts[..n - 1], ts[n - 1]);
      assert BusyBelow(ts, n) == BusyBelow(ts, n - 1) + if ts[n - 1].Busy? then {n - 1} else {};
    } else {
      assert BusyBelow(ts, n) == {};
    }
  }

  lemma {:induction false} LoopsPlus<T>(ts: seq<Local<T>>, l: Local<T>)
    ensures Loops(ts + [l]) == Loops(ts) + InLoop(l) && Waits(ts + [l]) == Waits(ts) + InWait(l)
  {
    if ts != [] {
      assert (ts + [l])[1..] == ts[1..] + [l];
      LoopsPlus(ts[1..], l);
    } else {
      assert ts + [l] == [l];
    }
  }

  // ---------------------------------------------------------------------------------------
  // Progress

  /** Steps that threads take of themselves. */
  predicate Internal<T>(step: Step<T>) {
    step.Check? || step.Lock? || step.Relock?
  }

  /** What is left to do. */
  function Work<T>(s: State<T>): nat {
    3 * |s.shared.queue| + Loads(s.threads)
  }

  /** Every step that threads take of themselves leaves less to do. */
  lemma StepWorks<T>(s: State<T>, step: Step<T>, nBatchSize: nat)
    requires Inv(s) && Possible(s, step) && Internal(step)
    ensures Safe(s, step) && Work(Next(s, step, nBatchSize)) < Work(s)
  {
    StepOk(s, step, nBatchSize);
    if step.Check? {
      CheckWorks(s, step.t, step.passes);
    } else {
      LockWorks(s, step, nBatchSize);
    }
    hide Inv, Checked, Work;
  }

  lemma CheckWorks<T>(s: State<T>, t: nat, passes: bool)
    requires t < |s.threads| && s.threads[t].Busy? && s.threads[t].left != []
    ensures Work(Checked(s, t, passes)) == Work(s) - 1
  {
    SumUpdate(s.threads, t, Checked(s, t, passes).threads[t]);
  }

  lemma LockWorks<T>(s: State<T>, step: Step<T>, nBatchSize: nat)
    requires Inv(s) && Possible(s, step) && (step.Lock? || step.Relock?) && Safe(s, step)
    ensures Work(Next(s, step, nBatchSize)) < Work(s)
  {
    hide Settle, Mid, Inv, Work, TopState, Settled;
    FromTop(s, step, nBatchSize);
    TopOk(s, step);
    TopWork(s, step);
    MidSafe(TopState(s, step), step.t);
    SettledWork(TopState(s, step), step.t, nBatchSize);
  }

  lemma TopWork<T>(s: State<T>, step: Step<T>)
    requires Possible(s, step) && (step.Lock? || step.Relock?)
    ensures Work(TopState(s, step)) <= Work(s) + 1
  {
    var t, u := step.t, TopState(s, step);
    var wake := step.Lock? && s.threads[t].Busy? && u.shared.nTodo == 0 && t != 0;
    var ts := if wake then s.threads[0 := Wake(s.threads[0])] else s.threads;
    SumUpdate(s.threads, 0, Wake(s.threads[0]));
    assert ts[t] == s.threads[t];
    SumUpdate(ts, t, AtTopLocal());
    hide Loads;
  }

  lemma SettledWork<T>(s: State<T>, t: nat, nBatchSize: nat)
    requires Mid(s, t)
    ensures var (r, outcome) := Settle(s.shared, t == 0, nBatchSize);
            Work(Settled(s, t, s.threads, r, outcome)) <= Work(s) - 2
  {
    hide Mid, Loads, BatchSize;
    MidSafe(s, t);
    var (r, outcome) := Settle(s.shared, t == 0, nBatchSize);
    SumUpdate(s.threads, t, Settled(s, t, s.threads, r, outcome).threads[t]);
    if s.shared.queue != [] {
      SettleConserves(s.shared, t == 0, nBatchSize);
    }
  }

  /** The queue cannot get stuck: while the master waits, some thread can go on by itself; and if the master
      sleeps without having been notified, some worker has a batch it has not reported. */
  lemma NotStuck<T>(s: State<T>) returns (step: Step<T>)
    requires Inv(s) && !s.threads[0].Outside?
    ensures Internal(step) && Possible(s, step)
    ensures s.threads[0].Asleep? ==> exists w :: 0 < w < |s.threads| && s.threads[w].Busy?
  {
    var t: nat := 0;
    if s.threads[0].Asleep? {
      t := SumWitness(s.threads);
    }
    step := if s.threads[t].Woken? then Relock(t)
            else if s.threads[t].Busy? && s.threads[t].left != [] then Check(t, true)
            else Lock(t);
  }

  /** The state after a sequence of steps, if each was possible in its turn. */
  ghost function Follow<T>(s: State<T>, nBatchSize: nat, steps: seq<Step<T>>): (r: Option<State<T>>)
    requires Inv(s)
    ensures r.Some? ==> Inv(r.value)
    decreases |steps|
  {
    if steps == [] then Some(s)
    else if Possible(s, steps[0]) then
      StepOk(s, steps[0], nBatchSize);
      Follow(Next(s, steps[0], nBatchSize), nBatchSize, steps[1..])
    else None
  }

  /** Wait ends: threads left to themselves take no more steps than there was work to do, and when they
      can take none any more, the master has returned. */
  lemma {:induction false} WaitEnds<T>(s: State<T>, nBatchSize: nat, steps: seq<Step<T>>)
    requires Inv(s) && (forall step :: step in steps ==> Internal(step)) && Follow(s, nBatchSize, steps).Some?
    ensures var u := Follow(s, nBatchSize, steps).value;
            && |steps| + Work(u) <= Work(s)
            && ((forall step: Step<T> :: Internal(step) ==> !Possible(u, step)) ==> u.threads[0].Outside?)
    decreases |steps|
  {
    hide Inv, Work, Next;
    if steps != [] {
      StepOk(s, steps[0], nBatchSize);
      StepWorks(s, steps[0], nBatchSize);
      WaitEnds(Next(s, steps[0], nBatchSize), nBatchSize, steps[1..]);
    } else {
      MasterThere(s);
      if !s.threads[0].Outside? {
        var step := NotStuck(s);
      }
    }
  }

  lemma MasterThere<T>(s: State<T>)
    requires Inv(s)
    ensures |s.threads| > 0
  {
  }
}
