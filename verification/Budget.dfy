/** Budgets (src/masternode-budget.cpp): choosing proposals by votes, voting on a finalized budget that pays just
    these, and checking its payments.
*/
module Budget {
  import opened BudgetPayments
  import opened Collections
  import opened Sorting
  import opened Wrappers

  /** The parts of CBudgetProposal that a budget is made of: `votes` is yeas less nays, `passing` what
      IsPassing says for the next period. */
  datatype Proposal = Proposal(hash: nat, feeHash: nat, payee: string, amount: int, votes: int, passing: bool)

  function ToPayment(p: Proposal): Payment {
    Payment(p.hash, p.payee, p.amount)
  }

  function ToPayments(s: seq<Proposal>): (r: seq<Payment>)
    ensures |r| == |s| && forall i :: 0 <= i < |s| ==> r[i] == ToPayment(s[i])
  {
    seq(|s|, i requires 0 <= i < |s| => ToPayment(s[i]))
  }

  // ---------------------------------------------------------------------------------------
  // Choosing proposals

  /** sortProposalsByVotes. */
  predicate MoreVotes(a: Proposal, b: Proposal) {
    a.votes > b.votes || (a.votes == b.votes && a.feeHash > b.feeHash)
  }

  predicate AllDistinct(s: seq<Proposal>) {
    forall i, j :: 0 <= i < j < |s| ==> s[i].hash != s[j].hash
  }

  function Total(s: seq<Proposal>): int {
    if s == [] then 0 else Total(s[..|s| - 1]) + s[|s| - 1].amount
  }

  /** The first of the proposals that pass and still fit in the budget, in their order. */
  function FirstFit(s: seq<Proposal>, budget: int): seq<Proposal> {
    if s == [] then []
    else
      var before := FirstFit(s[..|s| - 1], budget);
      var p := s[|s| - 1];
      if p.passing && p.amount + Total(before) <= budget then before + [p] else before
  }

  /** What is chosen is within the budget. */
  lemma {:induction false} FirstFitFits(s: seq<Proposal>, budget: int)
    requires budget >= 0
    ensures Total(FirstFit(s, budget)) <= budget
  {
    if s != [] {
      FirstFitFits(s[..|s| - 1], budget);
      var before, p := FirstFit(s[..|s| - 1], budget), s[|s| - 1];
      assert (before + [p])[..|before|] == before;
    }
  }

  /** A proposal is chosen just if it passes and fits in the budget together with those chosen before it. */
  lemma {:induction false} FirstFitTurn(s: seq<Proposal>, budget: int, i: nat)
    requires i < |s|
    ensures var before := FirstFit(s[..i], budget);
            && FirstFit(s[..i + 1], budget)
               == (if s[i].passing && s[i].amount + Total(before) <= budget then before + [s[i]] else before)
            && FirstFit(s[..i + 1], budget) <= FirstFit(s, budget)
  {
    hide Total;
    var front := s[..|s| - 1];
    if i < |front| {
      FirstFitTurn(front, budget, i);
      assert front[..i] == s[..i] && front[..i + 1] == s[..i + 1];
      assert FirstFit(front, budget) <= FirstFit(s, budget);
    } else {
      assert s[..i] == front && s[..i + 1] == s;
    }
  }

  lemma {:induction false} FirstFitFrom(s: seq<Proposal>, budget: int)
    ensures forall p :: p in FirstFit(s, budget) ==> p in s && p.passing
  {
    if s != [] {
      FirstFitFrom(s[..|s| - 1], budget);
    }
  }

  lemma {:induction false} FirstFitDistinct(s: seq<Proposal>, budget: int)
    requires AllDistinct(s)
    ensures AllDistinct(FirstFit(s, budget))
  {
    if s != [] {
      var front := s[..|s| - 1];
      FirstFitDistinct(front, budget);
      FirstFitFrom(front, budget);
      var r := FirstFit(front, budget);
      forall i | 0 <= i < |r|
        ensures r[i].hash != s[|s| - 1].hash
      {
        assert r[i] in front;
      }
    }
  }

  /** p is not behind q: it has more votes, or as many and a fee transaction not smaller. */
  predicate NotBehind(p: Proposal, q: Proposal) {
    p.votes > q.votes || (p.votes == q.votes && p.feeHash >= q.feeHash)
  }

  /** A choice by votes: no chosen proposal is behind a later one; and of the others each that passes does not fit in
      the budget together with some first ones of the choice, none of which is behind it, while it is behind none of
      the rest. */
  ghost predicate ByVotes(chosen: seq<Proposal>, proposals: map<nat, Proposal>, budget: int) {
    && (forall i, j :: 0 <= i < j < |chosen| ==> NotBehind(chosen[i], chosen[j]))
    && (forall h :: h in proposals && proposals[h].passing && proposals[h] !in chosen ==>
          exists k: nat :: k <= |chosen| && Precede(chosen, k, proposals[h])
                           && proposals[h].amount + Total(chosen[..k]) > budget)
    && (forall k :: 0 <= k < |chosen| ==>
          && chosen[k].passing && chosen[k].hash in proposals && proposals[chosen[k].hash] == chosen[k]
          && chosen[k].amount + Total(chosen[..k]) <= budget)
  }

  /** The first k chosen are those that go before a proposal. */
  predicate Precede(chosen: seq<Proposal>, k: nat, p: Proposal) {
    && k <= |chosen|
    && (forall i :: 0 <= i < k ==> NotBehind(chosen[i], p))
    && (forall i :: k <= i < |chosen| ==> NotBehind(p, chosen[i]))
  }

  lemma SortedNotBehind(s: seq<Proposal>)
    requires IsSorted(MoreVotes, s)
    ensures forall i, j :: 0 <= i < j < |s| ==> NotBehind(s[i], s[j])
  {
    forall i, j | 0 <= i < j < |s|
      ensures NotBehind(s[i], s[j])
    {
      assert !MoreVotes(s[j], s[i]);
    }
  }

  /** What is chosen after the first i proposals comes from the rest. */
  lemma {:induction false} FirstFitRest(s: seq<Proposal>, budget: int, i: nat)
    requires i <= |s|
    ensures FirstFit(s[..i], budget) <= FirstFit(s, budget)
    ensures forall p :: p in FirstFit(s, budget)[|FirstFit(s[..i], budget)|..] ==> p in s[i..]
  {
    hide Total;
    if i == |s| {
      assert s[..i] == s;
    } else {
      var front := s[..|s| - 1];
      FirstFitRest(front, budget, i);
      assert front[..i] == s[..i];
      assert s[i..] == front[i..] + [s[|s| - 1]];
    }
  }

  /** Each proposal is chosen or not when its turn comes, after those of the choice that precede it. */
  lemma TurnByVotes(s: seq<Proposal>, budget: int, i: nat)
    requires IsSorted(MoreVotes, s) && i < |s|
    ensures var chosen, k := FirstFit(s, budget), |FirstFit(s[..i], budget)|;
            && k <= |chosen| && chosen[..k] == FirstFit(s[..i], budget) && Precede(chosen, k, s[i])
            && (s[i].passing && s[i].amount + Total(chosen[..k]) <= budget ==> k < |chosen| && chosen[k] == s[i])
  {
    hide Total, FirstFit, IsSorted;
    SortedNotBehind(s);
    FirstFitRest(s, budget, i);
    FirstFitTurn(s, budget, i);
    FirstFitFrom(s[..i], budget);
    var chosen, before := FirstFit(s, budget), FirstFit(s[..i], budget);
    forall j | 0 <= j < |before|
      ensures NotBehind(chosen[j], s[i])
    {
      assert chosen[j] == before[j] && before[j] in s[..i];
    }
    forall j | |before| <= j < |chosen|
      ensures NotBehind(s[i], chosen[j])
    {
      assert chosen[j] in chosen[|before|..];
      assert chosen[j] in s[i..];
    }
  }

  lemma {:induction false} FirstFitPlaces(s: seq<Proposal>, budget: int, k: nat) returns (i: nat)
    requires k < |FirstFit(s, budget)|
    ensures i < |s| && FirstFit(s, budget)[k] == s[i] && FirstFit(s[..i], budget) == FirstFit(s, budget)[..k]
    ensures s[i].passing && s[i].amount + Total(FirstFit(s[..i], budget)) <= budget
  {
    var front := s[..|s| - 1];
    if k < |FirstFit(front, budget)| {
      i := FirstFitPlaces(front, budget, k);
      assert front[..i] == s[..i];
    } else {
      i := |s| - 1;
    }
  }

  /** First fit in the order of votes. */
  lemma FirstFitByVotes(proposals: map<nat, Proposal>, s: seq<Proposal>, budget: int)
    requires IsOrder(proposals, s) && forall h :: h in proposals ==> proposals[h].hash == h
    ensures ByVotes(FirstFit(s, budget), proposals, budget)
  {
    hide IsSorted, FirstFit, Total, NotBehind, Precede;
    var chosen := FirstFit(s, budget);
    SortedNotBehind(s);
    FirstFitFrom(s, budget);
    forall k | 0 <= k < |chosen|
      ensures chosen[k].amount + Total(chosen[..k]) <= budget
      ensures forall j :: k < j < |chosen| ==> NotBehind(chosen[k], chosen[j])
    {
      var i := FirstFitPlaces(s, budget, k);
      LaterNotBehind(s, budget, i);
    }
    forall h | h in proposals && proposals[h].passing && proposals[h] !in chosen
      ensures exists k: nat :: k <= |chosen| && Precede(chosen, k, proposals[h])
                               && proposals[h].amount + Total(chosen[..k]) > budget
    {
      var i :| 0 <= i < |s| && s[i] == proposals[h];
      TurnByVotes(s, budget, i);
    }
  }

  lemma LaterNotBehind(s: seq<Proposal>, budget: int, i: nat)
    requires IsSorted(MoreVotes, s) && i < |s|
    ensures var k := |FirstFit(s[..i], budget)|;
            k <= |FirstFit(s, budget)|
            && forall j :: k < j < |FirstFit(s, budget)| ==> NotBehind(s[i], FirstFit(s, budget)[j])
  {
    TurnByVotes(s, budget, i);
  }

  /** The proposal that all other passing ones are behind is chosen if only it fits in the budget. */
  lemma MostVotesWin(chosen: seq<Proposal>, proposals: map<nat, Proposal>, budget: int, p: Proposal)
    requires ByVotes(chosen, proposals, budget) && AllDistinct(chosen)
    requires p.hash in proposals && proposals[p.hash] == p && p.passing && p.amount <= budget
    requires forall h :: h in proposals && proposals[h].passing && h != p.hash ==>
               p.votes > proposals[h].votes || (p.votes == proposals[h].votes && p.feeHash > proposals[h].feeHash)
    ensures chosen != [] && chosen[0] == p
  {
    assert forall i :: 0 <= i < |chosen| && NotBehind(chosen[i], p) ==> chosen[i] == p;
    assert forall k: nat :: 0 < k <= |chosen| && Precede(chosen, k, p) ==> chosen[0] == p;
    assert forall j :: 0 < j < |chosen| && chosen[j] == p ==> NotBehind(chosen[0], p);
    assert chosen[..0] == [];
  }

  /** Proposals that pass are allotted their amount if they are chosen, and nothing otherwise. */
  ghost predicate Assigned(allotted: map<nat, int>, s: seq<Proposal>, chosen: seq<Proposal>) {
    forall i :: 0 <= i < |s| && s[i].passing ==>
      s[i].hash in allotted && allotted[s[i].hash] == if s[i] in chosen then s[i].amount else 0
  }

  lemma NothingChosen(budget: int)
    ensures FirstFit([], budget) == [] && Total([]) == 0
  {
  }

  lemma TotalPlus(s: seq<Proposal>, p: Proposal)
    ensures Total(s + [p]) == Total(s) + p.amount
  {
    assert (s + [p])[..|s|] == s;
  }

  lemma NothingAssigned(allotted: map<nat, int>)
    ensures Assigned(allotted, [], [])
  {
  }

  lemma AssignedMore(allotted: map<nat, int>, s: seq<Proposal>, p: Proposal, chosen: seq<Proposal>)
    requires Assigned(allotted, s, chosen) && AllDistinct(s + [p]) && forall q :: q in chosen ==> q in s
    ensures Assigned(allotted[p.hash := p.amount], s + [p], chosen + [p])
    ensures Assigned(allotted[p.hash := 0], s + [p], chosen)
    ensures !p.passing ==> Assigned(allotted, s + [p], chosen)
  {
    var more := s + [p];
    forall i | 0 <= i < |s|
      ensures more[i] == s[i] && s[i].hash != p.hash
    {
      assert more[i].hash != more[|s|].hash;
    }
  }

  /** All proposals, in an order that sorting them by votes may give. */
  ghost predicate IsOrder(proposals: map<nat, Proposal>, sorted: seq<Proposal>) {
    && IsSorted(MoreVotes, sorted) && AllDistinct(sorted)
    && forall p :: p in sorted <==> p.hash in proposals && proposals[p.hash] == p
  }

  class CBudgetManager {
    var mapProposals: map<nat, Proposal>

    /** nAlloted of each proposal. */
    var allotted: map<nat, int>

    ghost predicate Valid()
      reads this
    {
      forall h :: h in mapProposals ==> mapProposals[h].hash == h
    }

    /** The loop that lists all proposals. */
    method List() returns (all: seq<Proposal>)
      requires Valid()
      ensures AllDistinct(all)
      ensures forall p :: p in all <==> p.hash in mapProposals && mapProposals[p.hash] == p
    {
      all := [];
      var left := mapProposals.Keys;
      var more := true;
      while more
        invariant left <= mapProposals.Keys
        invariant AllDistinct(all)
        invariant forall p :: p in all <==> p.hash in mapProposals && mapProposals[p.hash] == p && p.hash !in left
        invariant !more ==> forall h :: h !in left
        decreases left, more
      {
        if h :| h in left {
          all := all + [mapProposals[h]];
          left := left - {h};
        } else {
          more := false;
        }
      }
    }

    /** GetBudget: the proposals chosen, and the order they were sorted in. No proposal is chosen twice, and what is
        chosen is within the budget. Those that pass are allotted their amount if chosen and nothing otherwise. */
    method GetBudget(tip: bool, nTotalBudget: int) returns (ret: seq<Proposal>, sorted: seq<Proposal>)
      requires Valid()
      modifies this`allotted
      ensures IsOrder(mapProposals, sorted)
      ensures ret == if tip then FirstFit(sorted, nTotalBudget) else []
      ensures tip ==> Assigned(allotted, sorted, ret) && ByVotes(ret, mapProposals, nTotalBudget)
      ensures AllDistinct(ret) && (nTotalBudget >= 0 ==> Total(ret) <= nTotalBudget)
    {
      hide IsSorted, ByVotes;
      var all := List();
      sorted := Sort(MoreVotes, all);
      SortKeeps(all);
      ret := [];
      if !tip {
        return;
      }
      ret := ChooseFrom(sorted, nTotalBudget);
      FirstFitDistinct(sorted, nTotalBudget);
      FirstFitByVotes(mapProposals, sorted, nTotalBudget);
      if nTotalBudget >= 0 {
        FirstFitFits(sorted, nTotalBudget);
      }
    }

    /** The loop over the sorted proposals. */
    method ChooseFrom(sorted: seq<Proposal>, nTotalBudget: int) returns (ret: seq<Proposal>)
      requires AllDistinct(sorted)
      modifies this`allotted
      ensures ret == FirstFit(sorted, nTotalBudget) && Assigned(allotted, sorted, ret)
    {
      hide Assigned, FirstFit, Total;
      ret := [];
      var nBudgetAllocated := 0;
      NothingAssigned(allotted);
      NothingChosen(nTotalBudget);
      assert sorted[..0] == [];
      for k := 0 to |sorted|
        invariant ret == FirstFit(sorted[..k], nTotalBudget) && nBudgetAllocated == Total(ret)
        invariant Assigned(allotted, sorted[..k], ret)
      {
        var p := sorted[k];
        assert sorted[..k + 1] == sorted[..k] + [p];
        FirstFitTurn(sorted, nTotalBudget, k);
        TotalPlus(ret, p);
        FirstFitFrom(sorted[..k], nTotalBudget);
        AssignedMore(allotted, sorted[..k], p, ret);
        if p.passing {
          if p.amount + nBudgetAllocated <= nTotalBudget {
            allotted := allotted[p.hash := p.amount];
            nBudgetAllocated := nBudgetAllocated + p.amount;
            ret := ret + [p];
          } else {
            allotted := allotted[p.hash := 0];
          }
        }
      }
      assert sorted[..|sorted|] == sorted;
    }

    /** The payments SubmitFinalBudget takes from the chosen proposals. */
    method FinalPayments(tip: bool, nTotalBudget: int) returns (payments: seq<Payment>, sorted: seq<Proposal>)
      requires Valid()
      modifies this`allotted
      ensures IsOrder(mapProposals, sorted)
      ensures payments == if tip then ToPayments(FirstFit(sorted, nTotalBudget)) else []
    {
      hide IsSorted, AllDistinct;
      var chosen;
      chosen, sorted := GetBudget(tip, nTotalBudget);
      FirstFitFrom(sorted, nTotalBudget);
      payments := TakePayments(chosen);
    }

    /** The loop over the chosen proposals. */
    method TakePayments(chosen: seq<Proposal>) returns (payments: seq<Payment>)
      requires forall p :: p in chosen ==> p.hash in allotted && allotted[p.hash] == p.amount
      ensures payments == ToPayments(chosen)
    {
      payments := [];
      for i := 0 to |chosen|
        invariant |payments| == i && forall j :: 0 <= j < i ==> payments[j] == ToPayment(chosen[j])
      {
        payments := payments + [Payment(chosen[i].hash, chosen[i].payee, allotted[chosen[i].hash])];
      }
    }
  }

  lemma MoreVotesOrders()
    ensures WeakOrder(MoreVotes)
  {
  }

  lemma SortKeeps(all: seq<Proposal>)
    requires AllDistinct(all)
    ensures var s := Sort(MoreVotes, all);
            && IsSorted(MoreVotes, s) && (forall p :: p in s <==> p in all)
            && AllDistinct(s)
  {
    hide WeakOrder, IsSorted, Sort, AllDistinct;
    MoreVotesOrders();
    SortSorts(MoreVotes, all);
    SameElements(all, Sort(MoreVotes, all));
    StillDistinct(all, Sort(MoreVotes, all));
  }

  lemma SameElements<T>(s: seq<T>, r: seq<T>)
    requires multiset(r) == multiset(s)
    ensures forall p :: p in r <==> p in s
  {
    forall p
      ensures p in r <==> p in s
    {
      assert p in multiset(r) <==> p in multiset(s);
    }
  }

  lemma StillDistinct(all: seq<Proposal>, s: seq<Proposal>)
    requires AllDistinct(all) && multiset(s) == multiset(all)
    ensures AllDistinct(s)
  {
    UniquePermuted(all, s);
    SameElements(all, s);
    forall i, j | 0 <= i < j < |s|
      ensures s[i].hash != s[j].hash
    {
      assert s[i] in all && s[j] in all && s[i] != s[j];
    }
  }

  /** With distinct fee transactions there is one choice, whatever order the proposals were listed in. */
  lemma ChoiceOnce(a: seq<Proposal>, b: seq<Proposal>, budget: int)
    requires IsSorted(MoreVotes, a) && IsSorted(MoreVotes, b) && multiset(a) == multiset(b)
    requires forall i, j :: 0 <= i < |a| && 0 <= j < |a| && a[i].feeHash == a[j].feeHash ==> a[i] == a[j]
    ensures FirstFit(a, budget) == FirstFit(b, budget)
  {
    MoreVotesOrders();
    SortedOnce(MoreVotes, a, b);
  }

  // ---------------------------------------------------------------------------------------
  // Voting on a finalized budget

  /** sortPaymentsByHash, which is sortProposalsByHash too on the payments of proposals. */
  predicate LessHash(a: Payment, b: Payment) {
    a.hash < b.hash
  }

  lemma LessHashOrders()
    ensures WeakOrder(LessHash)
  {
  }

  predicate HashesDistinct(s: seq<Payment>) {
    forall i, j :: 0 <= i < j < |s| ==> s[i].hash != s[j].hash
  }

  /** However the sort arranges payments of the same proposal: if the payments are a permutation of the choice,
      sorting both by hash makes them equal, and only then. */
  lemma SortedMatch(payments: seq<Payment>, choice: seq<Payment>, a: seq<Payment>, b: seq<Payment>)
    requires HashesDistinct(choice)
    requires IsSorted(LessHash, a) && multiset(a) == multiset(payments)
    requires IsSorted(LessHash, b) && multiset(b) == multiset(choice)
    ensures a == b <==> multiset(payments) == multiset(choice)
  {
    if multiset(payments) == multiset(choice) {
      LessHashOrders();
      forall i, j | 0 <= i < |b| && 0 <= j < |b|
        ensures b[i] == b[j] || LessHash(b[i], b[j]) || LessHash(b[j], b[i])
      {
        assert b[i] in multiset(choice) && b[j] in multiset(choice);
      }
      SortedOnce(LessHash, b, a);
    }
  }

  /** The payments are a permutation of a choice that is not empty. */
  predicate Agrees(payments: seq<Payment>, choice: seq<Proposal>) {
    choice != [] && multiset(payments) == multiset(ToPayments(choice))
  }

  /** Two orders of the same proposals are permutations of each other. */
  lemma SameProposals(proposals: map<nat, Proposal>, a: seq<Proposal>, b: seq<Proposal>)
    requires IsOrder(proposals, a) && IsOrder(proposals, b)
    ensures multiset(a) == multiset(b)
  {
    hide IsSorted;
    forall p
      ensures multiset(a)[p] == multiset(b)[p]
    {
      OnceIn(a, p);
      OnceIn(b, p);
      assert p in multiset(a) <==> p in a;
      assert p in multiset(b) <==> p in b;
    }
  }

  /** A list of payments that one node makes of its choice always matches the choice of another with the same
      proposals and the same total, if fee transactions are distinct: it will vote, unless there is no choice. */
  lemma AlwaysMatches(proposals: map<nat, Proposal>, a: seq<Proposal>, b: seq<Proposal>, nTotalBudget: int)
    requires IsOrder(proposals, a) && IsOrder(proposals, b)
    requires forall g, h :: g in proposals && h in proposals && proposals[g].feeHash == proposals[h].feeHash ==> g == h
    requires forall h :: h in proposals ==> proposals[h].hash == h
    ensures FirstFit(a, nTotalBudget) == FirstFit(b, nTotalBudget)
    ensures Agrees(ToPayments(FirstFit(a, nTotalBudget)), FirstFit(b, nTotalBudget))
            <==> FirstFit(b, nTotalBudget) != []
  {
    hide FirstFit, IsSorted;
    SameProposals(proposals, a, b);
    forall i, j | 0 <= i < |a| && 0 <= j < |a| && a[i].feeHash == a[j].feeHash
      ensures a[i] == a[j]
    {
      assert a[i] in a && a[j] in a;
      assert a[i].hash in proposals && a[j].hash in proposals;
    }
    ChoiceOnce(a, b, nTotalBudget);
  }

  /** The history of payments, which all finalized budgets share (mapPayment_History). */
  class PaymentHistory {
    var paid: History

    constructor ()
      ensures paid == map[]
    {
      paid := map[];
    }
  }

  class CFinalizedBudget {
    const nBlockStart: int
    const payments: seq<Payment>
    var fAutoChecked: bool

    constructor (nBlockStart: int, payments: seq<Payment>)
      ensures this.nBlockStart == nBlockStart && this.payments == payments && !fAutoChecked
    {
      this.nBlockStart, this.payments, fAutoChecked := nBlockStart, payments, false;
    }

    function Value(): Finalized {
      Finalized(nBlockStart, payments)
    }

    /** CheckAndVote: whether it comes to SubmitVote. Past the gates it does just when the payments are a permutation
        of the node's own choice, made of its proposals in the order `sorted`, if that is not empty. */
    method CheckAndVote(budget: CBudgetManager, nTotalBudget: int, tip: bool, fMasterNode: bool, random: nat,
                        auto: bool)
        returns (vote: bool, ghost sorted: seq<Proposal>)
      requires budget.Valid()
      modifies this, budget`allotted
      ensures fAutoChecked == (old(fAutoChecked) || (tip && fMasterNode && random % 4 == 0))
      ensures var gates := tip && fMasterNode && !old(fAutoChecked) && random % 4 == 0 && auto;
              && (gates ==> IsOrder(budget.mapProposals, sorted))
              && (vote <==> gates && Agrees(payments, FirstFit(sorted, nTotalBudget)))
    {
      vote, sorted := false, [];
      if !tip {
        return;
      }
      if !fMasterNode || fAutoChecked {
        return;
      }
      if random % 4 != 0 {
        return;
      }
      fAutoChecked := true;
      if auto {
        var chosen, order := budget.GetBudget(tip, nTotalBudget);
        vote := Matches(chosen);
        sorted := order;
      }
    }

    /** Sorting both by hash and comparing them one by one. */
    method Matches(chosen: seq<Proposal>) returns (same: bool)
      requires AllDistinct(chosen)
      ensures same <==> Agrees(payments, chosen)
    {
      hide Sort, IsSorted;
      var own := ToPayments(chosen);
      assert HashesDistinct(own);
      LessHashOrders();
      SortSorts(LessHash, own);
      SortSorts(LessHash, payments);
      var proposals := Sort(LessHash, own);
      var sorted := Sort(LessHash, payments);
      assert |proposals| == |multiset(own)| == |chosen|;
      SortedMatch(payments, own, sorted, proposals);
      if |proposals| == 0 {
        return false;
      }
      if |proposals| != |sorted| {
        return false;
      }
      same := Equal(sorted, proposals);
    }

    /** The loop that compares payments one by one. */
    method Equal(sorted: seq<Payment>, proposals: seq<Payment>) returns (same: bool)
      requires |sorted| == |proposals|
      ensures same <==> sorted == proposals
    {
      for i := 0 to |sorted|
        invariant sorted[..i] == proposals[..i]
      {
        if sorted[i].hash != proposals[i].hash {
          return false;
        }
        if sorted[i].payee != proposals[i].payee {
          return false;
        }
        if sorted[i].amount != proposals[i].amount {
          return false;
        }
      }
      assert sorted[..|sorted|] == sorted && proposals[..|sorted|] == proposals;
      same := true;
    }

    /** IsPaidAlready: forgets other cycles, and notes the proposal if it was not paid in this one. */
    method IsPaidAlready(history: PaymentHistory, hash: nat, nBlockHeight: int) returns (paid: bool)
      modifies history
      ensures var current := Current(Value(), old(history.paid));
              && (paid <==> hash in current)
              && history.paid == if paid then current else current[hash := nBlockHeight]
    {
      ghost var start := history.paid;
      var left := history.paid.Keys;
      var more := true;
      while more
        invariant left <= start.Keys && history.paid.Keys <= start.Keys
        invariant forall h :: h in history.paid <==> h in start && (h in left || InCycle(Value(), start[h]))
        invariant forall h :: h in history.paid ==> history.paid[h] == start[h]
        invariant !more ==> forall h :: h !in left
        decreases left, more
      {
        if h :| h in left {
          if history.paid[h] < nBlockStart || history.paid[h] > BlockEnd(Value()) {
            history.paid := history.paid - {h};
          }
          left := left - {h};
        } else {
          more := false;
        }
      }
      assert history.paid == Current(Value(), start);
      if hash !in history.paid {
        history.paid := history.paid[hash := nBlockHeight];
        return false;
      }
      return true;
    }

    /** IsTransactionValid, for a transaction with these outputs. */
    method IsTransactionValid(history: PaymentHistory, outs: seq<Output>, nBlockHeight: int) returns (status: Status)
      modifies history
      ensures var c := Check(Value(), outs, nBlockHeight);
              status == StatusOf(old(history.paid), c) && history.paid == After(old(history.paid), c)
    {
      status := InValid;
      var nCurrentBudgetPayment := nBlockHeight - nBlockStart;
      if nCurrentBudgetPayment < 0 {
        return;
      }
      if nCurrentBudgetPayment > |payments| - 1 {
        return;
      }
      var due := payments[nCurrentBudgetPayment];
      ghost var start := history.paid;
      assert outs[..0] == [];
      for i := 0 to |outs|
        invariant status != DoublePayment && Count(outs[..i], due) <= 1
        invariant status == if Count(outs[..i], due) == 0 then InValid else Status.Valid
        invariant if status == InValid then history.paid == start
                  else due.hash !in Current(Value(), start)
                       && history.paid == Current(Value(), start)[due.hash := nBlockHeight]
      {
        assert outs[..i + 1][..i] == outs[..i];
        CountGrows(outs, due, i + 1);
        if due.payee == outs[i].scriptPubKey && due.amount == outs[i].nValue {
          CurrentOnce(Value(), start, due.hash, nBlockHeight);
          var paid := IsPaidAlready(history, due.hash, nBlockHeight);
          if paid {
            status := DoublePayment;
            return;
          }
          status := Status.Valid;
        }
      }
      assert outs[..|outs|] == outs;
    }
  }
}
