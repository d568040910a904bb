/** What a run of a chain counts (native/bap_jit.cpp:2054-2065, 2089-2094, 2109-2120): it is in balance in every run. */
module ChainCounts {
  import opened Basics
  import opened ChainSpec

  /** Whether the ranges that ran are those listed, each once, and nothing is counted of others. */
  ghost predicate Orderly(l: Ledger) {
    && l.Shaped()
    && (forall k | 0 <= k < |l.order| :: l.order[k] < |l.runs|)
    && (forall j, k | 0 <= j < k < |l.order| :: l.order[j] != l.order[k])
    && (forall i | 0 <= i < |l.runs| :: i in l.order <==> l.runs[i] > 0)
    && (forall i | 0 <= i < |l.runs| && l.runs[i] == 0 :: l.executed[i] == 0)
  }

  /** Whether ranges have been executed as often as before a run, and as that has counted, in 64 bits. */
  ghost predicate Balances(start: seq<U64>, l: Ledger) {
    && l.Shaped() && |start| == |l.executions|
    && forall i | 0 <= i < |start| :: l.executions[i] == Added(start[i], l.executed[i])
  }

  function SumOver(executed: seq<nat>, order: seq<nat>): nat {
    if order == [] then 0
    else
      var i := order[|order| - 1];
      SumOver(executed, order[..|order| - 1]) + if i < |executed| then executed[i] else 0
  }

  lemma {:induction false} SumWithout(executed: seq<nat>, order: seq<nat>, i: nat, n: nat)
    requires i < |executed| && i !in order
    ensures SumOver(executed[i := n], order) == SumOver(executed, order)
    decreases |order|
  {
    if order != [] {
      assert order[|order| - 1] in order;
      SumWithout(executed, order[..|order| - 1], i, n);
    }
  }

  lemma {:induction false} SumWith(executed: seq<nat>, order: seq<nat>, i: nat, n: nat)
    requires i < |executed| && i in order && forall j, k | 0 <= j < k < |order| :: order[j] != order[k]
    ensures SumOver(executed[i := n], order) == SumOver(executed, order) - executed[i] + n
    decreases |order|
  {
    var last := |order| - 1;
    if order[last] == i {
      SumWithout(executed, order[..last], i, n);
    } else {
      SumWith(executed, order[..last], i, n);
    }
  }

  lemma {:induction false} EachWithinSum(executed: seq<nat>, order: seq<nat>, i: nat)
    requires i < |executed| && i in order
    ensures executed[i] <= SumOver(executed, order)
    decreases |order|
  {
    var last := |order| - 1;
    if order[last] != i {
      EachWithinSum(executed, order[..last], i);
    }
  }

  /** To count a range once more adds just that to what is counted of all. */
  lemma CountSums(l: Ledger, i: nat, executed: nat)
    requires Orderly(l) && i < |l.runs|
    ensures var m := CountedIn(l, i, executed);
            SumOver(m.executed, m.order) == SumOver(l.executed, l.order) + executed
  {
    assert l.runs[i] == 0 <==> i !in l.order;
    SumsOnce(l.executed, l.order, i, executed);
  }

  lemma SumsOnce(counted: seq<nat>, order: seq<nat>, i: nat, executed: nat)
    requires i < |counted| && (i !in order ==> counted[i] == 0)
    requires forall j, k | 0 <= j < k < |order| :: order[j] != order[k]
    ensures SumOver(counted[i := counted[i] + executed], if i in order then order else order + [i])
            == SumOver(counted, order) + executed
  {
    if i in order {
      SumWith(counted, order, i, counted[i] + executed);
    } else {
      SumListing(counted, order, i, executed);
    }
  }

  lemma SumListing(counted: seq<nat>, order: seq<nat>, i: nat, executed: nat)
    requires i < |counted| && i !in order && counted[i] == 0
    ensures SumOver(counted[i := counted[i] + executed], order + [i]) == SumOver(counted, order) + executed
  {
    SumWithout(counted, order, i, counted[i] + executed);
    assert (order + [i])[..|order|] == order;
  }

  lemma CountOrders(l: Ledger, i: nat, executed: nat)
    requires Orderly(l) && i < |l.runs|
    ensures Orderly(CountedIn(l, i, executed))
  {
    var m := CountedIn(l, i, executed);
    forall j, k | 0 <= j < k < |m.order| ensures m.order[j] != m.order[k] {
      if k == |l.order| {
        assert m.order[j] in l.order;
      }
    }
    forall j | 0 <= j < |m.runs| ensures j in m.order <==> m.runs[j] > 0 {
      assert j in l.order <==> l.runs[j] > 0;
    }
  }

  lemma SumsWrap(x: U64, y: nat, z: nat)
    ensures Added(Added(x, y), z) == Added(x, y + z)
  {
  }

  lemma CountBalances(start: seq<U64>, l: Ledger, i: nat, executed: nat)
    requires Balances(start, l) && i < |l.runs|
    ensures Balances(start, CountedIn(l, i, executed))
  {
    SumsWrap(start[i], l.executed[i], executed);
  }

  /** What holds of a ledger in a run that has chained so much. */
  ghost predicate Kept(start: seq<U64>, l: Ledger, vars: Vars, counted: int) {
    Orderly(l) && Balances(start, l) && SumOver(l.executed, l.order) == counted && vars.Shaped() && Listed(vars)
  }

  lemma AfterLists<W>(range: Range<W>, vars: Vars, next: U64, state: seq<U64>, registers: seq<U64>)
    requires vars.Shaped() && Listed(vars)
    ensures Listed(AfterRange(range, vars, next, state, registers))
  {
    if range.direct {
      var there := vars.(registers := Resized(registers, |vars.registers|));
      assert forall v: nat :: there.Written(v) <==> vars.Written(v);
      SayLists(there, OutputsAt(range, next), state, false);
    }
  }

  lemma BlankLists(vars: Vars)
    requires vars.Shaped() && Listed(vars)
    ensures Listed(Blank(vars))
  {
    assert forall v: nat :: Blank(vars).Written(v) <==> vars.Written(v);
  }

  lemma CountKeeps(start: seq<U64>, l: Ledger, i: nat, executed: nat)
    requires Orderly(l) && Balances(start, l) && i < |l.runs|
    ensures var m := CountedIn(l, i, executed);
            && Orderly(m) && Balances(start, m)
            && SumOver(m.executed, m.order) == SumOver(l.executed, l.order) + executed
  {
    CountSums(l, i, executed);
    CountOrders(l, i, executed);
    CountBalances(start, l, i, executed);
  }

  lemma EndIsKept<W>(
      ranges: Ranges<W>, start: seq<U64>, p: Point<W>, anew: bool, next: U64, state: seq<U64>, registers: seq<U64>, world: W)
    requires p.In(ranges) && Kept(start, p.ledger, p.vars, p.chained - Executed(p.first, 0))
    ensures var end := EndAfter(ranges, p, anew, next, state, registers, world);
            Kept(start, end.ledger, end.vars, end.chained)
  {
    var range := ranges.all[p.range];
    CountKeeps(start, p.ledger, p.range, Executed(p.first, Entered(range, state, p.budget)));
    AfterLists(range, p.vars, next, state, registers);
    BlankLists(AfterRange(range, p.vars, next, state, registers));
  }

  /** Whether what comes after a range is in balance, within what is left of the budget. */
  ghost predicate GoesOnKept<W>(start: seq<U64>, after: After<W>, most: int) {
    match after
    case GoesTo(q) => Kept(start, q.ledger, q.vars, q.chained - 1) && !q.first && q.chained + q.budget <= most
    case Stops(end) => EndsKept(start, end, most)
  }

  ghost predicate EndsKept<W>(start: seq<U64>, end: End<W>, most: int) {
    match end
    case Ends(_, _, _, vars, chained, _, ledger) => Kept(start, ledger, vars, chained) && chained <= most
    case Fails(_, ledger) => Orderly(ledger) && Balances(start, ledger) && SumOver(ledger.executed, ledger.order) <= most
  }

  lemma OnwardIsKept<W>(
      ranges: Ranges<W>, start: seq<U64>, end: End<W>, budget: U64, leanRan: bool, spare: seq<U64>, anew: bool, most: int)
    requires IsIn(ranges, end) && Kept(start, end.ledger, end.vars, end.chained)
    requires end.chained + budget - Entered(ranges.all[end.range], end.state, budget) <= most
    ensures GoesOnKept(start, Onward(ranges, end, budget, leanRan, spare, anew), most)
  {
    var range := ranges.all[end.range];
    if Leads(ranges, end, budget, leanRan) && !range.direct {
      SayLists(end.vars, OutputsAt(range, end.next), end.state, true);
    }
  }

  lemma StepIsKept<W>(ranges: Ranges<W>, start: seq<U64>, p: Point<W>, anew: bool)
    requires p.In(ranges) && Kept(start, p.ledger, p.vars, p.chained - Executed(p.first, 0))
    ensures GoesOnKept(start, Step(ranges, p, anew), p.chained + p.budget)
  {
    match ranges.all[p.range].run(p.state, p.vars.registers, p.world)
    case Failed(_) =>
    case Ran(next, state, registers, world, leanRan) =>
      EndIsKept(ranges, start, p, anew, next, state, registers, world);
      OnwardIsKept(ranges, start, EndAfter(ranges, p, anew, next, state, registers, world), p.budget, leanRan, p.spare, anew,
                   p.chained + p.budget);
  }

  /** In every run, what is chained is the sum of what is counted of each range, and within the budget; executions are those
      before it and what is counted, in 64 bits; ranges that ran are listed once each; and so are variables that are
      written. */
  lemma {:induction false} RunIsKept<W>(ranges: Ranges<W>, start: seq<U64>, p: Point<W>, anew: bool)
    requires p.In(ranges) && Kept(start, p.ledger, p.vars, p.chained - Executed(p.first, 0))
    ensures EndsKept(start, Run(ranges, p, anew), p.chained + p.budget)
    decreases p.budget
  {
    StepIsKept(ranges, start, p, anew);
    var after := Step(ranges, p, anew);
    if after.GoesTo? {
      RunIsKept(ranges, start, after.point, anew);
    }
  }

  lemma NewIsKept(executions: seq<U64>, vars: Vars)
    requires vars.Shaped() && Listed(vars)
    ensures Kept(executions, NewLedger(executions), vars, 0)
  {
  }

  /** Executions after a run that failed: what it counted is taken back. */
  function TakenBack(l: Ledger): (e: seq<U64>)
    requires l.Shaped()
    ensures |e| == |l.executions|
  {
    seq(|l.executions|, i requires 0 <= i < |l.executions| => Restored(l.executions[i], l.executed[i]))
  }

  /** What it counted is taken back just if it did not make the executions begin again at 0. */
  lemma TakenBackExactly(before: seq<U64>, l: Ledger, i: nat, most: nat)
    requires Orderly(l) && Balances(before, l) && SumOver(l.executed, l.order) <= most < WORD && i < |before|
    ensures TakenBack(l)[i] == before[i] <==> before[i] + l.executed[i] < WORD
    ensures before[i] + most < WORD ==> TakenBack(l)[i] == before[i]
  {
    assert i in l.order <==> l.runs[i] > 0;
    if i in l.order {
      EachWithinSum(l.executed, l.order, i);
    }
    RestoredExactly(before[i], l.executed[i]);
  }

  /** A run that fails leaves the executions of a range as they were just if what it counted did not make them begin again,
      which it can't with a budget that doesn't. */
  lemma FailedRunsCountNothing<W>(ranges: Ranges<W>, p: Point<W>, anew: bool, i: nat)
    requires p.In(ranges) && p.first && p.chained == 0 && Listed(p.vars) && p.ledger == NewLedger(p.ledger.executions)
    requires Run(ranges, p, anew).Fails? && i < |ranges.all|
    ensures var end, before := Run(ranges, p, anew).ledger, p.ledger.executions;
            && |end.executions| == |before| && end.Shaped()
            && (TakenBack(end)[i] == before[i] <==> before[i] + end.executed[i] < WORD)
            && (before[i] + p.budget < WORD ==> TakenBack(end)[i] == before[i])
  {
    NewIsKept(p.ledger.executions, p.vars);
    RunIsKept(ranges, p.ledger.executions, p, anew);
    TakenBackExactly(p.ledger.executions, Run(ranges, p, anew).ledger, i, p.budget);
  }
}
