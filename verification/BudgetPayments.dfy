/** Checking budget payments (src/masternode-budget.cpp): all finalized budgets share one history of what was
    paid, and each forgets from it what lies outside its own cycle.
*/
module BudgetPayments {
  import opened Wrappers

  /** CTxBudgetPayment. */
  datatype Payment = Payment(hash: nat, payee: string, amount: int)

  /** The parts of CFinalizedBudget that payments are checked against. */
  datatype Finalized = Finalized(nBlockStart: int, payments: seq<Payment>)

  /** The height each proposal was noted as paid at (mapPayment_History). */
  type History = map<nat, int>

  datatype Status = InValid | Valid | DoublePayment

  /** An output of a transaction. */
  datatype Output = Output(scriptPubKey: string, nValue: int)

  function BlockEnd(b: Finalized): int {
    b.nBlockStart + |b.payments| - 1
  }

  predicate InCycle(b: Finalized, height: int) {
    b.nBlockStart <= height <= BlockEnd(b)
  }

  /** The payments of the history that belong to a budget's cycle. */
  function Current(b: Finalized, paid: History): History {
    map h | h in paid && InCycle(b, paid[h]) :: paid[h]
  }

  /** How many outputs pay what is due. */
  function Count(outs: seq<Output>, due: Payment): nat {
    if outs == [] then 0
    else Count(outs[..|outs| - 1], due)
         + if outs[|outs| - 1] == Output(due.payee, due.amount) then 1 else 0
  }

  lemma {:induction false} CountGrows(outs: seq<Output>, due: Payment, i: nat)
    requires i <= |outs|
    ensures Count(outs[..i], due) <= Count(outs, due)
    decreases |outs| - i
  {
    if i < |outs| {
      CountGrows(outs, due, i + 1);
      assert outs[..i + 1][..i] == outs[..i];
    } else {
      assert outs[..i] == outs;
    }
  }

  /** The outputs that pay what is due: its payee and its amount. */
  ghost function Paying(outs: seq<Output>, due: Payment): set<nat> {
    set i: nat | i < |outs| && outs[i].scriptPubKey == due.payee && outs[i].nValue == due.amount
  }

  lemma {:induction false} CountIs(outs: seq<Output>, due: Payment)
    ensures Count(outs, due) == |Paying(outs, due)|
  {
    if outs == [] {
      assert Paying(outs, due) == {};
    } else {
      CountIs(outs[..|outs| - 1], due);
      PayingMore(outs, due);
    }
  }

  lemma PayingMore(outs: seq<Output>, due: Payment)
    requires outs != []
    ensures var n := |outs| - 1;
            |Paying(outs, due)|
            == |Paying(outs[..n], due)|
               + if outs[n].scriptPubKey == due.payee && outs[n].nValue == due.amount then 1 else 0
  {
    var n: nat := |outs| - 1;
    var last := outs[n].scriptPubKey == due.payee && outs[n].nValue == due.amount;
    assert Paying(outs, due) == Paying(outs[..n], due) + if last then {n} else {};
  }

  /** A transaction checked against a budget at a height. */
  datatype Check = Check(budget: Finalized, outs: seq<Output>, height: int)

  /** The payment that is due. */
  function DuePayment(c: Check): Option<Payment> {
    if InCycle(c.budget, c.height) then Some(c.budget.payments[c.height - c.budget.nBlockStart]) else None
  }

  /** The proposal that is due. */
  function Due(c: Check): Option<nat> {
    if DuePayment(c).Some? then Some(DuePayment(c).value.hash) else None
  }

  /** How many of the outputs pay it. */
  function Matches(c: Check): (n: nat)
    ensures n > 0 ==> Due(c).Some?
  {
    if DuePayment(c).Some? then Count(c.outs, DuePayment(c).value) else 0
  }

  /** CFinalizedBudget::IsTransactionValid: valid if just one output pays what is due and the proposal is not noted
      in this cycle, a double payment if more do or it is. */
  function StatusOf(paid: History, c: Check): Status {
    if Matches(c) == 0 then InValid
    else if Matches(c) > 1 || Due(c).value in Current(c.budget, paid) then DoublePayment
    else Valid
  }

  /** The history it leaves. */
  function After(paid: History, c: Check): History {
    var current := Current(c.budget, paid);
    if Matches(c) == 0 then paid
    else if Due(c).value in current then current
    else current[Due(c).value := c.height]
  }

  /** A status by the payments, the outputs and the heights: none is due outside the cycle; otherwise there must be an
      output that pays it, and for a valid payment just one, and none noted in this cycle. */
  lemma StatusIs(paid: History, c: Check)
    ensures var (b, n) := (c.budget, c.height - c.budget.nBlockStart);
            if 0 <= n < |b.payments| then
              var (due, paying) := (b.payments[n], |Paying(c.outs, b.payments[n])|);
              var noted := due.hash in paid && 0 <= paid[due.hash] - b.nBlockStart < |b.payments|;
              && (StatusOf(paid, c) == InValid <==> paying == 0)
              && (StatusOf(paid, c) == Valid <==> paying == 1 && !noted)
            else StatusOf(paid, c) == InValid
  {
    hide Paying, Count;
    if DuePayment(c).Some? {
      CountIs(c.outs, DuePayment(c).value);
    }
  }

  /** What is current stays so. */
  lemma CurrentOnce(b: Finalized, paid: History, hash: nat, height: int)
    requires InCycle(b, height)
    ensures Current(b, Current(b, paid)[hash := height]) == Current(b, paid)[hash := height]
    ensures Current(b, Current(b, paid)) == Current(b, paid)
  {
  }

  // ---------------------------------------------------------------------------------------
  // Runs of checks, against any budgets

  /** The history after the first n checks. */
  function HistoryAt(paid: History, checks: seq<Check>, n: nat): History
    requires n <= |checks|
  {
    if n == 0 then paid else After(HistoryAt(paid, checks, n - 1), checks[n - 1])
  }

  function StatusAt(paid: History, checks: seq<Check>, i: nat): Status
    requires i < |checks|
  {
    StatusOf(HistoryAt(paid, checks, i), checks[i])
  }

  /** The check notes its proposal as paid: an output pays it, and it is not noted in this cycle yet. */
  predicate Notes(paid: History, checks: seq<Check>, i: nat)
    requires i < |checks|
  {
    var c := checks[i];
    Matches(c) > 0 && Due(c).value !in Current(c.budget, HistoryAt(paid, checks, i))
  }

  /** The check forgets what was noted at a height: an output pays what is due, and the height is not in the cycle. */
  predicate Forgets(c: Check, height: int) {
    Matches(c) > 0 && !InCycle(c.budget, height)
  }

  /** A check is valid just if it notes its proposal, and for one output only. */
  lemma ValidNotes(paid: History, checks: seq<Check>, i: nat)
    requires i < |checks|
    ensures StatusAt(paid, checks, i) == Valid <==> Notes(paid, checks, i) && Matches(checks[i]) == 1
  {
  }

  /** What is noted stays noted as long as no check forgets it. */
  lemma {:induction false} StaysNoted(paid: History, checks: seq<Check>, i: nat, n: nat)
    requires i < n <= |checks| && Notes(paid, checks, i)
    requires forall k :: i < k < n ==> !Forgets(checks[k], checks[i].height)
    ensures var h := HistoryAt(paid, checks, n);
            Due(checks[i]).value in h && h[Due(checks[i]).value] == checks[i].height
  {
    hide Matches;
    if n > i + 1 {
      StaysNoted(paid, checks, i, n - 1);
      assert !Forgets(checks[n - 1], checks[i].height);
    }
  }

  /** What is not noted stays so until a check notes it. */
  lemma {:induction false} StaysForgotten(paid: History, checks: seq<Check>, hash: nat, i: nat, n: nat)
    requires i <= n <= |checks| && hash !in HistoryAt(paid, checks, i)
    requires forall k :: i <= k < n && Due(checks[k]) == Some(hash) ==> !Notes(paid, checks, k)
    ensures hash !in HistoryAt(paid, checks, n)
  {
    hide Matches, DuePayment;
    if n > i {
      StaysForgotten(paid, checks, hash, i, n - 1);
    }
  }

  /** A check that forgets a proposal, if it does not note it itself, leaves it forgotten. */
  lemma ForgetsIt(paid: History, checks: seq<Check>, hash: nat, k: nat, height: int)
    requires k < |checks| && Forgets(checks[k], height)
    requires var h := HistoryAt(paid, checks, k); hash in h ==> h[hash] == height
    requires Due(checks[k]) == Some(hash) ==> !Notes(paid, checks, k)
    ensures hash !in HistoryAt(paid, checks, k + 1)
  {
    hide Matches;
  }

  /** Some check after i, up to j, notes the proposal that check i noted. */
  ghost predicate NotedAgain(paid: History, checks: seq<Check>, i: nat, j: nat)
    requires j < |checks|
  {
    exists k :: i < k <= j && Due(checks[k]) == Due(checks[i]) && Notes(paid, checks, k)
  }

  /** Some check after i, up to j, forgets the height check i noted. */
  ghost predicate ForgottenBetween(checks: seq<Check>, i: nat, j: nat)
    requires j < |checks|
  {
    exists k :: i < k <= j && Forgets(checks[k], checks[i].height)
  }

  /** Of a proposal noted once and due again, it is noted again just if between the two, or with the second, the
      first was forgotten: some budget whose cycle excludes its height met a matching output. */
  lemma AgainIfForgotten(paid: History, checks: seq<Check>, i: nat, j: nat)
    requires i < j < |checks| && Notes(paid, checks, i)
    requires Due(checks[j]) == Due(checks[i]) && Matches(checks[j]) > 0
    ensures NotedAgain(paid, checks, i, j) <==> ForgottenBetween(checks, i, j)
  {
    hide Matches, HistoryAt;
    var hash := Due(checks[i]).value;
    if NotedAgain(paid, checks, i, j) && !ForgottenBetween(checks, i, j) {
      var k :| i < k <= j && Due(checks[k]) == Due(checks[i]) && Notes(paid, checks, k);
      StaysNoted(paid, checks, i, k);
      assert false;
    }
    if ForgottenBetween(checks, i, j) && !NotedAgain(paid, checks, i, j) {
      var k := FirstForgets(checks, i, j);
      StaysNoted(paid, checks, i, k);
      ForgetsIt(paid, checks, hash, k, checks[i].height);
      if k < j {
        StaysForgotten(paid, checks, hash, k + 1, j);
      }
      assert false;
    }
  }

  /** The first check after i that forgets the height check i noted. */
  lemma FirstForgets(checks: seq<Check>, i: nat, j: nat) returns (k: nat)
    requires i < j < |checks| && ForgottenBetween(checks, i, j)
    ensures i < k <= j && Forgets(checks[k], checks[i].height)
    ensures forall l :: i < l < k ==> !Forgets(checks[l], checks[i].height)
  {
    k := i + 1;
    while !Forgets(checks[k], checks[i].height)
      invariant i < k <= j
      invariant forall l :: i < l < k ==> !Forgets(checks[l], checks[i].height)
      decreases j - k
    {
      k := k + 1;
      assert k <= j;
    }
  }

  /** So the next payment of a proposal after a valid one is valid too just if the first was forgotten. */
  lemma NextIsValid(paid: History, checks: seq<Check>, i: nat, j: nat)
    requires i < j < |checks| && StatusAt(paid, checks, i) == Valid
    requires Due(checks[j]) == Due(checks[i]) && Matches(checks[j]) == 1
    requires forall k :: i < k < j && Due(checks[k]) == Due(checks[i]) ==> !Notes(paid, checks, k)
    ensures StatusAt(paid, checks, j) == Valid <==> ForgottenBetween(checks, i, j)
  {
    hide HistoryAt, Notes, Forgets;
    ValidNotes(paid, checks, i);
    ValidNotes(paid, checks, j);
    AgainIfForgotten(paid, checks, i, j);
  }

  /** And a proposal is paid validly at most once while it is not forgotten; in particular, a single budget pays
      none twice. */
  lemma PaidOnce(paid: History, checks: seq<Check>, i: nat, j: nat)
    requires i < j < |checks| && Due(checks[i]) == Due(checks[j])
    requires StatusAt(paid, checks, i) == StatusAt(paid, checks, j) == Valid
    ensures ForgottenBetween(checks, i, j)
    ensures exists k :: i < k <= j && checks[k].budget != checks[i].budget
  {
    hide HistoryAt, Forgets;
    ValidNotes(paid, checks, i);
    ValidNotes(paid, checks, j);
    AgainIfForgotten(paid, checks, i, j);
    assert NotedAgain(paid, checks, i, j);
    var k := FirstForgets(checks, i, j);
    ForgetsOthers(checks[k], checks[i]);
  }

  lemma ForgetsOthers(c: Check, first: Check)
    requires Matches(first) > 0 && Forgets(c, first.height)
    ensures c.budget != first.budget
  {
  }

  /** Two budgets, one paid after the other, and a transaction for the first checked again: it is valid again. */
  lemma PaidTwice()
    ensures var first := Check(Finalized(100, [Payment(1, "x", 5)]), [Output("x", 5)], 100);
            var other := Check(Finalized(200, [Payment(2, "y", 7)]), [Output("y", 7)], 200);
            var checks := [first, other, first];
            StatusAt(map[], checks, 0) == StatusAt(map[], checks, 1) == StatusAt(map[], checks, 2) == Valid
  {
    var first := Check(Finalized(100, [Payment(1, "x", 5)]), [Output("x", 5)], 100);
    var other := Check(Finalized(200, [Payment(2, "y", 7)]), [Output("y", 7)], 200);
    var checks := [first, other, first];
    assert [Output("x", 5)][..0] == [] && [Output("y", 7)][..0] == [];
    assert Matches(first) == 1 && Matches(other) == 1;
    assert HistoryAt(map[], checks, 0) == map[];
    assert HistoryAt(map[], checks, 1) == map[1 := 100];
    assert HistoryAt(map[], checks, 2) == map[2 := 200];
  }
}
