/** A chain of compiled ranges (native/bap_jit.cpp:1811-2170), which goes from one to the next with what it has at hand:
    where a range went last, what was said to be written, what was found bound, and the slots that other ranges left. It
    comes to what `ChainSpec` says of its ranges. A pointer to a range is its number. */
module Chain {
  import opened Basics
  import opened ChainSpec
  import opened ChainCounts
  import opened ChainReuse

  /** A range of a chain, with what it has at hand and what a run did of it. */
  datatype Item<!W> = Item(
    range: Range<W>, flagged: seq<Output>, executions: U64, optimizeAt: U64,
    lastNext: U64, lastTarget: Option<nat>, outputsSaid: nat, readyIn: nat,
    touched: bool, runs: nat, executed: nat)

  /** Whether where a range went last is what is there. */
  predicate TargetIsRight<W>(entries: map<U64, nat>, item: Item<W>) {
    item.lastTarget.Some? ==> item.lastNext in entries && entries[item.lastNext] == item.lastTarget.value
  }

  /** Whether a range is one that fits, with its flagged outputs at hand, and counts as touched if it ran. */
  ghost predicate RangeIsRight<W>(item: Item<W>) {
    Fits(item.range) && item.flagged == Flagged(item.range.outputs) && (item.touched <==> item.runs > 0)
  }

  /** Whether what was said and found in a run of the chain is so. */
  ghost predicate RunIsRight<W>(item: Item<W>, run: nat, vars: Vars) {
    && item.outputsSaid <= run && item.readyIn <= run
    && (item.outputsSaid == run ==> AllSaid(vars, item.range.outputs))
    && (item.readyIn == run ==> Ready(vars, item.range.required))
  }

  ghost predicate ItemIsRight<W>(entries: map<U64, nat>, item: Item<W>, run: nat, vars: Vars) {
    TargetIsRight(entries, item) && RangeIsRight(item) && RunIsRight(item, run, vars)
  }

  ghost predicate AllRight<W>(entries: map<U64, nat>, items: seq<Item<W>>, run: nat, vars: Vars) {
    && Placed(entries, |items|)
    && forall i {:trigger ItemIsRight(entries, items[i], run, vars)} | 0 <= i < |items| ::
         ItemIsRight(entries, items[i], run, vars)
  }

  function ExecutionsOf<W>(items: seq<Item<W>>): (e: seq<U64>)
    ensures |e| == |items|
  {
    seq(|items|, i requires 0 <= i < |items| => items[i].executions)
  }

  /** What the items of a chain, and the list of those touched, count. */
  function LedgerOf<W>(items: seq<Item<W>>, touched: seq<nat>): (l: Ledger)
    ensures l.Shaped() && |l.executions| == |items|
  {
    Ledger(ExecutionsOf(items), seq(|items|, i requires 0 <= i < |items| => items[i].runs),
           seq(|items|, i requires 0 <= i < |items| => items[i].executed), touched)
  }

  function RangesOf<W>(entries: map<U64, nat>, items: seq<Item<W>>): Ranges<W> {
    Ranges(seq(|items|, i requires 0 <= i < |items| => items[i].range), entries,
           seq(|items|, i requires 0 <= i < |items| => items[i].optimizeAt))
  }

  /** A change of one range in what it has at hand, or in what it counts. */
  lemma OneChanges<W>(entries: map<U64, nat>, items: seq<Item<W>>, run: nat, vars: Vars, i: nat, item: Item<W>)
    requires AllRight(entries, items, run, vars) && i < |items| && ItemIsRight(entries, item, run, vars)
    requires item.range == items[i].range && item.optimizeAt == items[i].optimizeAt
    ensures AllRight(entries, items[i := item], run, vars)
    ensures RangesOf(entries, items[i := item]) == RangesOf(entries, items)
  {
    var changed := items[i := item];
    forall j | 0 <= j < |changed| ensures ItemIsRight(entries, changed[j], run, vars) {
      if j != i {
        assert ItemIsRight(entries, items[j], run, vars);
      }
    }
  }

  /** What is right stays so as more is bound and written. */
  lemma MoreVars<W>(entries: map<U64, nat>, items: seq<Item<W>>, run: nat, vars: Vars, next: Vars)
    requires AllRight(entries, items, run, vars) && Keeps(vars, next)
    ensures AllRight(entries, items, run, next)
  {
    forall i | 0 <= i < |items| ensures ItemIsRight(entries, items[i], run, next) {
      assert ItemIsRight(entries, items[i], run, vars);
    }
  }

  /** A range that ran once more. */
  function Counting<W>(item: Item<W>, executed: nat): Item<W> {
    item.(executions := Added(item.executions, executed), touched := true, runs := item.runs + 1,
          executed := item.executed + executed)
  }

  lemma CountsInLedger<W>(items: seq<Item<W>>, touched: seq<nat>, i: nat, executed: nat)
    requires i < |items| && (items[i].touched <==> items[i].runs > 0)
    ensures LedgerOf(items[i := Counting(items[i], executed)], if items[i].touched then touched else touched + [i])
            == CountedIn(LedgerOf(items, touched), i, executed)
  {
  }

  /** Whether ranges have changed only in what they have at hand. */
  ghost predicate OnlyAtHand<W>(items: seq<Item<W>>, now: seq<Item<W>>) {
    |now| == |items| && forall i {:trigger AtHand(items[i], now[i])} | 0 <= i < |items| :: AtHand(items[i], now[i])
  }

  ghost predicate AtHand<W>(item: Item<W>, now: Item<W>) {
    now == item.(lastNext := now.lastNext, lastTarget := now.lastTarget, outputsSaid := now.outputsSaid,
                 readyIn := now.readyIn)
  }

  lemma AtHandOnly<W>(entries: map<U64, nat>, items: seq<Item<W>>, now: seq<Item<W>>, touched: seq<nat>)
    requires OnlyAtHand(items, now)
    ensures RangesOf(entries, now) == RangesOf(entries, items) && LedgerOf(now, touched) == LedgerOf(items, touched)
  {
    forall i | 0 <= i < |items|
      ensures now[i].range == items[i].range && now[i].optimizeAt == items[i].optimizeAt
      ensures now[i].executions == items[i].executions && now[i].runs == items[i].runs && now[i].executed == items[i].executed {
      assert AtHand(items[i], now[i]);
    }
  }

  lemma AtHandStill<W>(items: seq<Item<W>>, between: seq<Item<W>>, now: seq<Item<W>>)
    requires OnlyAtHand(items, between) && OnlyAtHand(between, now)
    ensures OnlyAtHand(items, now)
  {
    forall i | 0 <= i < |items| ensures AtHand(items[i], now[i]) {
      assert AtHand(items[i], between[i]) && AtHand(between[i], now[i]);
    }
  }

  /** A run between two of its ranges: `next` is where the last went. */
  datatype Running<W> = Running(
    current: nat, state: seq<U64>, spare: seq<U64>, vars: Vars, budget: U64, chained: nat, world: W, first: bool,
    touched: seq<nat>, next: U64)

  datatype Status = Going | Stopped | Threw

  /** Whether a run is where a run of a range at a time is. */
  ghost predicate IsAt<W>(r: Running<W>, p: Point<W>, items: seq<Item<W>>) {
    && r.current < |items| && p.vars.Shaped()
    && p == Point(r.current, r.state, r.spare, r.vars, r.budget, r.chained, r.world, r.first, LedgerOf(items, r.touched))
  }

  /** Where a run ends if it stops where it is. */
  ghost function EndOf<W>(r: Running<W>, items: seq<Item<W>>): End<W> {
    Ends(r.current, r.next, r.state, r.vars, r.chained, r.world, LedgerOf(items, r.touched))
  }

  ghost predicate IsEnd<W>(r: Running<W>, status: Status, end: End<W>, items: seq<Item<W>>) {
    match end
    case Fails(world, ledger) => status == Threw && r.world == world && LedgerOf(items, r.touched) == ledger
    case Ends(_, _, _, _, _, _, _) => status == Stopped && r.current < |items| && end == EndOf(r, items)
  }

  /** Whether a run has come to what a run of a range at a time has after a range. */
  ghost predicate Follows<W>(s: Running<W>, status: Status, after: After<W>, items: seq<Item<W>>) {
    match after
    case Stops(end) => status != Going && IsEnd(s, status, end, items)
    case GoesTo(point) => status == Going && IsAt(s, point, items)
  }

  /** What a run says that it did of a range. */
  datatype Report = Report(id: U64, runs: nat, executed: nat)

  /** What a run gives back: nothing, if it doesn't start at a range of the chain; that it failed; or where its last
      range went and the slots that left, how many more blocks were chained, whether the variables are all in registers,
      those that were written, and the runs of each range. */
  datatype Result<W> =
    | Refused
    | RunFailed(world: W)
    | Done(id: U64, chained: nat, direct: bool, written: seq<(nat, U64)>, report: seq<Report>, next: U64, state: seq<U64>,
           world: W)

  /** The runs of ranges, by a ledger. */
  ghost function ReportBy<W>(ranges: Ranges<W>, l: Ledger): (report: seq<Report>)
    requires Orderly(l) && |ranges.all| == |l.runs|
    ensures |report| == |l.order|
  {
    seq(|l.order|, k requires 0 <= k < |l.order| =>
      Report(ranges.all[l.order[k]].id, l.runs[l.order[k]], l.executed[l.order[k]]))
  }

  /** Whether a run has given back what a run of a range at a time comes to, and left the executions of ranges as that says. */
  ghost predicate GivesBack<W>(result: Result<W>, ranges: Ranges<W>, end: End<W>, executions: seq<U64>) {
    match end
    case Fails(world, ledger) => result == RunFailed(world) && ledger.Shaped() && executions == TakenBack(ledger)
    case Ends(range, next, state, vars, chained, world, ledger) =>
      && range < |ranges.all| == |ledger.runs| && Orderly(ledger) && executions == ledger.executions
      && result == Done(ranges.all[range].id, chained, ranges.all[range].direct, Written(vars), ReportBy(ranges, ledger), next,
                        state, world)
  }

  /** The same, but for slots that are not told. */
  ghost predicate GivesBackTold<W>(result: Result<W>, ranges: Ranges<W>, end: End<W>, executions: seq<U64>) {
    match end
    case Fails(_, _) => GivesBack(result, ranges, end, executions)
    case Ends(range, next, state, _, _, _, _) =>
      && result.Done? && range < |ranges.all| && Told(ranges.all[range], next, result.state, state)
      && GivesBack(result, ranges, end.(state := result.state), executions)
  }

  /** What a run of a chain gives back is what running its ranges one at a time comes to, each from slots and registers
      made anew of the variables, if each depends on just what it may read. */
  lemma GivesBackAnew<W(!new)>(result: Result<W>, ranges: Ranges<W>, p: Point<W>, executions: seq<U64>)
    requires p.In(ranges) && AllRespect(ranges) && p.first && p.chained == 0 && Listed(p.vars)
    requires p.ledger == NewLedger(p.ledger.executions) && ranges.all[p.range].slotCount <= |p.state|
    requires GivesBack(result, ranges, Run(ranges, p, false), executions)
    ensures GivesBackTold(result, ranges, Run(ranges, p, true), executions)
  {
    var end, anew := Run(ranges, p, false), Run(ranges, p, true);
    ReuseIsInvisible(ranges, p, p);
    NewIsKept(p.ledger.executions, p.vars);
    RunIsKept(ranges, p.ledger.executions, p, false);
    if end.Ends? {
      WrittenAlike(end.vars, anew.vars);
    }
  }

  lemma WrittenAlike(v: Vars, w: Vars)
    requires VarsAlike(v, w) && Listed(v)
    ensures Written(v) == Written(w)
  {
    forall k | 0 <= k < |v.dirty| ensures Get(v.registers, v.dirty[k]) == Get(w.registers, v.dirty[k]) {
      assert v.dirty[k] in v.dirty;
      assert v.Written(v.dirty[k]) && v.Bound(v.dirty[k]);
    }
  }

  function ReportOf<W>(items: seq<Item<W>>, touched: seq<nat>): (report: seq<Report>)
    requires forall k | 0 <= k < |touched| :: touched[k] < |items|
    ensures |report| == |touched|
  {
    seq(|touched|, k requires 0 <= k < |touched| =>
      Report(items[touched[k]].range.id, items[touched[k]].runs, items[touched[k]].executed))
  }

  function SumOfReport(report: seq<Report>): nat {
    if report == [] then 0 else SumOfReport(report[..|report| - 1]) + report[|report| - 1].executed
  }

  lemma {:induction false} ReportSums<W>(items: seq<Item<W>>, touched: seq<nat>)
    requires forall k | 0 <= k < |touched| :: touched[k] < |items|
    ensures SumOfReport(ReportOf(items, touched)) == SumOver(LedgerOf(items, touched).executed, touched)
    decreases |touched|
  {
    if touched != [] {
      var report, n := ReportOf(items, touched), |touched| - 1;
      assert report[..n] == ReportOf(items, touched[..n]);
      assert LedgerOf(items, touched[..n]).executed == LedgerOf(items, touched).executed;
      ReportSums(items, touched[..n]);
    }
  }

  /** A range at the end of a run. */
  function Rested<W>(item: Item<W>, failed: bool): Item<W> {
    item.(executions := if failed then Restored(item.executions, item.executed) else item.executions,
          touched := false, runs := 0, executed := 0)
  }

  /** Between runs nothing is counted, and what was said and found was in another run. */
  lemma BeginsRight<W>(entries: map<U64, nat>, items: seq<Item<W>>, run: nat, vars: Vars)
    requires Placed(entries, |items|)
    requires forall i | 0 <= i < |items| :: Rests(entries, items[i]) && items[i].outputsSaid < run && items[i].readyIn < run
    ensures AllRight(entries, items, run, vars) && LedgerOf(items, []) == NewLedger(ExecutionsOf(items))
  {
    forall i | 0 <= i < |items| ensures ItemIsRight(entries, items[i], run, vars) {}
  }

  /** Whether a range is as it is between runs. */
  ghost predicate Rests<W>(entries: map<U64, nat>, item: Item<W>) {
    TargetIsRight(entries, item) && RangeIsRight(item) && !item.touched && item.executed == 0
  }

  lemma EndsRight<W>(entries: map<U64, nat>, items: seq<Item<W>>, run: nat, vars: Vars)
    requires AllRight(entries, items, run, vars)
    ensures forall i | 0 <= i < |items| ::
              TargetIsRight(entries, items[i]) && RangeIsRight(items[i])
              && items[i].outputsSaid <= run && items[i].readyIn <= run
  {
    forall i | 0 <= i < |items| ensures ItemIsRight(entries, items[i], run, vars) {}
  }

  /** The variables that were written, with what they hold. */
  function Written(vars: Vars): (w: seq<(nat, U64)>)
    ensures |w| == |vars.dirty|
  {
    seq(|vars.dirty|, k requires 0 <= k < |vars.dirty| => (vars.dirty[k], Get(vars.registers, vars.dirty[k])))
  }

  /** Whether variables are those that are given, the last value of each, with room for all that there are. */
  ghost predicate AreGiven(vars: Vars, variables: seq<nat>, values: seq<U64>, count: nat)
    requires |variables| == |values|
  {
    && vars.Shaped() && vars.dirty == [] && count <= |vars.bound|
    && (forall v: nat :: (vars.Bound(v) <==> v in variables) && !vars.Written(v))
    && (forall k | 0 <= k < |variables| && variables[k] !in variables[k + 1..] ::
          Get(vars.registers, variables[k]) == values[k])
    && (forall v: nat | !vars.Bound(v) :: Get(vars.registers, v) == 0)
  }

  class Chain<W(!new)> {
    var entries: map<U64, nat>
    var items: seq<Item<W>>
    // Which run this is, from 1.
    var run: nat

    /** Between runs. */
    ghost predicate Valid()
      reads this
    {
      && Placed(entries, |items|)
      && (forall i | 0 <= i < |items| :: Resting(items[i]))
    }

    ghost predicate Resting(item: Item<W>)
      reads this
    {
      Rests(entries, item) && item.outputsSaid <= run && item.readyIn <= run
    }

    constructor ()
      ensures Valid() && entries == map[]
    {
      entries, items, run := map[], [], 0;
    }

    /** Says what outputs have, each if its flag says so. */
    method SayEach(vars: Vars, outputs: seq<Output>, state: seq<U64>, copy: bool) returns (said: Vars)
      requires vars.Shaped()
      ensures said == Say(vars, outputs, state, copy)
    {
      said := vars;
      for k := 0 to |outputs|
        invariant said.Shaped() && Say(said, outputs[k..], state, copy) == Say(vars, outputs, state, copy)
      {
        assert outputs[k..][1..] == outputs[k + 1..];
        said := SayOne(said, outputs[k], state, copy);
      }
    }

    /** Says what a range with registers wrote there: what it always writes, only once a run. */
    method SayWritten(i: nat, vars: Vars, next: U64, state: seq<U64>) returns (said: Vars)
      requires i < |items| && vars.Shaped() && AllRight(entries, items, run, vars)
      modifies this`items
      ensures |items| == |old(items)| && said == Say(vars, OutputsAt(old(items)[i].range, next), state, false)
      ensures AllRight(entries, items, run, said)
      ensures OnlyAtHand(old(items), items)
    {
      var range := items[i].range;
      assert ItemIsRight(entries, items[i], run, vars);
      if next in range.checkpoints {
        said := SayEach(vars, range.checkpoints[next], state, false);
        SayKeeps(vars, range.checkpoints[next], state, false);
        MoreVars(entries, items, run, vars, said);
        return;
      }
      if items[i].outputsSaid == run {
        SayFlagged(vars, range.outputs, state);
        said := SayEach(vars, items[i].flagged, state, false);
      } else {
        said := SayEach(vars, range.outputs, state, false);
      }
      SayKeeps(vars, range.outputs, state, false);
      SaySaid(vars, range.outputs, state);
      MoreVars(entries, items, run, vars, said);
      assert ItemIsRight(entries, items[i], run, said);
      OneChanges(entries, items, run, said, i, items[i].(outputsSaid := run));
      items := items[i := items[i].(outputsSaid := run)];
    }

    /** What is where a range went: what was there when it last went there, or what is found. */
    method TargetOf(i: nat, next: U64, ghost vars: Vars) returns (target: Option<nat>)
      requires i < |items| && AllRight(entries, items, run, vars)
      modifies this`items
      ensures target == if next in entries then Some(entries[next]) else None
      ensures AllRight(entries, items, run, vars)
      ensures OnlyAtHand(old(items), items)
    {
      assert ItemIsRight(entries, items[i], run, vars);
      target := if items[i].lastNext == next then items[i].lastTarget else None;
      if target.None? && next in entries {
        target := Some(entries[next]);
        OneChanges(entries, items, run, vars, i, items[i].(lastNext := next, lastTarget := target));
        items := items[i := items[i].(lastNext := next, lastTarget := target)];
      }
    }

    /** Whether what a range needs is bound, which once it is, it is for the rest of the run. */
    method IsReady(t: nat, vars: Vars) returns (ready: bool)
      requires t < |items| && AllRight(entries, items, run, vars)
      modifies this`items
      ensures |items| == |old(items)| && (ready <==> Ready(vars, items[t].range.required))
      ensures AllRight(entries, items, run, vars)
      ensures OnlyAtHand(old(items), items)
    {
      assert ItemIsRight(entries, items[t], run, vars);
      if items[t].readyIn == run {
        return true;
      }
      var required := items[t].range.required;
      for k := 0 to |required|
        invariant forall j | 0 <= j < k :: vars.Bound(required[j])
      {
        if !vars.Bound(required[k]) {
          return false;
        }
      }
      OneChanges(entries, items, run, vars, t, items[t].(readyIn := run));
      items := items[t := items[t].(readyIn := run)];
      ready := true;
    }

    /** Counts a run of a range. */
    method Count(i: nat, executed: nat, touched: seq<nat>, ghost vars: Vars) returns (listed: seq<nat>)
      requires i < |items| && AllRight(entries, items, run, vars)
      modifies this`items
      ensures |items| == |old(items)| && AllRight(entries, items, run, vars)
      ensures RangesOf(entries, items) == RangesOf(entries, old(items))
      ensures LedgerOf(items, listed) == CountedIn(LedgerOf(old(items), touched), i, executed)
    {
      assert ItemIsRight(entries, items[i], run, vars);
      var counted := Counting(items[i], executed);
      listed := if items[i].touched then touched else touched + [i];
      OneChanges(entries, items, run, vars, i, counted);
      CountsInLedger(items, touched, i, executed);
      items := items[i := counted];
    }

    /** Says what a range with registers wrote there, if it has them. */
    method SayAfter(r: Running<W>, registers: seq<U64>) returns (vars: Vars)
      requires r.current < |items| && AllRight(entries, items, run, r.vars) && r.vars.Shaped()
      modifies this`items
      ensures OnlyAtHand(old(items), items) && AllRight(entries, items, run, vars)
      ensures vars == AfterRange(old(items)[r.current].range, r.vars, r.next, r.state, registers)
    {
      vars := r.vars;
      if items[r.current].range.direct {
        var there := vars.(registers := Resized(registers, |vars.registers|));
        MoreVars(entries, items, run, vars, there);
        vars := SayWritten(r.current, there, r.next, r.state);
      }
    }

    /** What a range wrote is said, and it is counted. */
    method Account(r: Running<W>, registers: seq<U64>, ghost ranges: Ranges<W>, ghost p: Point<W>) returns (a: Running<W>)
      requires r.current < |items| && AllRight(entries, items, run, r.vars)
      requires ranges == RangesOf(entries, items) && p.In(ranges) && p.vars == r.vars && p.range == r.current
      requires p.budget == r.budget && p.chained == r.chained && p.first == r.first && p.ledger == LedgerOf(items, r.touched)
      modifies this`items
      ensures |items| == |old(items)| && RangesOf(entries, items) == ranges && AllRight(entries, items, run, a.vars)
      ensures EndOf(a, items) == EndAfter(ranges, p, false, r.next, r.state, registers, r.world)
      ensures a == r.(vars := a.vars, chained := a.chained, touched := a.touched) && a.vars.Shaped()
    {
      ghost var before := items;
      var range := items[r.current].range;
      var vars := SayAfter(r, registers);
      AtHandOnly(entries, before, items, r.touched);
      var ran := Entered(range, r.state, r.budget);
      var touched := Count(r.current, Executed(r.first, ran), r.touched, vars);
      a := r.(vars := vars, chained := r.chained + ran, touched := touched);
    }

    /** The range that a run goes on to, unless it stops first: at an end that isn't a jump, once Lean code ran, at the end
        of the budget, where there is no range, or at one that is to be optimized. */
    method TargetAfter(r: Running<W>, leanRan: bool, ghost ranges: Ranges<W>) returns (target: Option<nat>)
      requires r.current < |items| && AllRight(entries, items, run, r.vars) && r.vars.Shaped()
      requires ranges == RangesOf(entries, items) && IsIn(ranges, EndOf(r, items))
      modifies this`items
      ensures OnlyAtHand(old(items), items) && AllRight(entries, items, run, r.vars)
      ensures target == if Leads(ranges, EndOf(r, old(items)), r.budget, leanRan) then Some(ranges.at[r.next]) else None
    {
      if !GoesOn(items[r.current].range, r.state, r.budget, leanRan) {
        return None;
      }
      ghost var before := items;
      target := TargetOf(r.current, r.next, r.vars);
      AtHandOnly(entries, before, items, r.touched);
      ghost var end := EndOf(r, before);
      assert end.ledger == LedgerOf(items, r.touched);
      if target.Some? {
        var there := items[target.value];
        assert Comes(ranges, target.value, end.ledger) <==>
               there.optimizeAt != NONE && Added(there.executions, 1) >= there.optimizeAt;
        if there.optimizeAt != NONE && Added(there.executions, 1) >= there.optimizeAt {
          target := None;
        }
      }
    }

    /** Says what a range wrote in its slots, if it has them there. */
    method SayForNext(i: nat, r: Running<W>) returns (vars: Vars)
      requires i < |items| && AllRight(entries, items, run, r.vars) && r.vars.Shaped()
      ensures vars == ForNext(items[i].range, r.vars, r.next, r.state) && AllRight(entries, items, run, vars)
    {
      vars := r.vars;
      var range := items[i].range;
      if !range.direct {
        vars := SayEach(vars, OutputsAt(range, r.next), r.state, true);
        SayKeeps(r.vars, OutputsAt(range, r.next), r.state, true);
        MoreVars(entries, items, run, r.vars, vars);
      }
    }

    /** Where the run goes from a range that was counted. */
    method GoOn(r: Running<W>, leanRan: bool, ghost ranges: Ranges<W>, ghost end: End<W>)
      returns (s: Running<W>, status: Status)
      requires r.current < |items| && AllRight(entries, items, run, r.vars) && r.vars.Shaped()
      requires ranges == RangesOf(entries, items) && end == EndOf(r, items) && IsIn(ranges, end)
      modifies this`items
      ensures OnlyAtHand(old(items), items) && AllRight(entries, items, run, s.vars) && s.vars.Shaped()
      ensures status != Threw && Follows(s, status, Onward(ranges, end, r.budget, leanRan, r.spare, false), items)
    {
      s, status := r, Stopped;
      ghost var first := items;
      var target := TargetAfter(r, leanRan, ranges);
      AtHandOnly(entries, first, items, r.touched);
      if target.Some? {
        var vars := SayForNext(r.current, r);
        ghost var second := items;
        var left := r.budget - Entered(items[r.current].range, r.state, r.budget);
        OnwardIs(ranges, end, r.budget, leanRan, r.spare, false, target.value, left);
        s, status := ArriveAt(r.(vars := vars), target.value, left, ranges, Said(ranges, end));
        AtHandStill(first, second, items);
      }
    }

    /** The run goes on to a range, with slots over those that were left before, unless something that it needs isn't
        bound. */
    method ArriveAt(r: Running<W>, target: nat, left: U64, ghost ranges: Ranges<W>, ghost end: End<W>)
      returns (s: Running<W>, status: Status)
      requires target < |items| && AllRight(entries, items, run, r.vars) && r.vars.Shaped() && left >= 1
      requires ranges == RangesOf(entries, items) && end == EndOf(r, items) && IsIn(ranges, end)
      modifies this`items
      ensures OnlyAtHand(old(items), items) && AllRight(entries, items, run, s.vars) && s.vars == r.vars
      ensures status != Threw && Follows(s, status, Arrive(ranges, end, target, left, r.spare, false), items)
    {
      s, status := r, Stopped;
      ghost var before := items;
      var ready := IsReady(target, r.vars);
      AtHandOnly(entries, before, items, r.touched);
      if ready {
        var there := items[target];
        var budget := NextBudget(left, there.optimizeAt, there.executions);
        var slots := Build(Resized(r.spare, there.range.slotCount), there.range, r.vars, budget);
        s := Running(target, slots, r.state, r.vars, budget, r.chained + 1, r.world, false, r.touched, r.next);
        status := Going;
      }
    }

    /** What comes after a range that ran. */
    method AfterRun(r: Running<W>, registers: seq<U64>, leanRan: bool, ghost ranges: Ranges<W>, ghost p: Point<W>)
      returns (s: Running<W>, status: Status)
      requires r.current < |items| && AllRight(entries, items, run, r.vars)
      requires ranges == RangesOf(entries, items) && p.In(ranges) && p.vars == r.vars && p.range == r.current
      requires p.budget == r.budget && p.chained == r.chained && p.first == r.first && p.ledger == LedgerOf(items, r.touched)
      requires p.spare == r.spare
      modifies this`items
      ensures |items| == |old(items)| && RangesOf(entries, items) == ranges
      ensures AllRight(entries, items, run, s.vars) && s.vars.Shaped() && status != Threw
      ensures Follows(s, status, StepOn(ranges, p, false, r.next, r.state, registers, r.world, leanRan), items)
    {
      var a := Account(r, registers, ranges, p);
      ghost var before := items;
      s, status := GoOn(a, leanRan, ranges, EndOf(a, items));
      AtHandOnly(entries, before, items, a.touched);
    }

    /** One range, and what comes after it. */
    method Advance(r: Running<W>, ghost p: Point<W>) returns (s: Running<W>, status: Status)
      requires AllRight(entries, items, run, r.vars) && IsAt(r, p, items)
      modifies this`items
      ensures |items| == |old(items)| && RangesOf(entries, items) == RangesOf(entries, old(items))
      ensures AllRight(entries, items, run, s.vars) && s.vars.Shaped()
      ensures Follows(s, status, Step(RangesOf(entries, items), p, false), items)
    {
      var range := items[r.current].range;
      match range.run(r.state, r.vars.registers, r.world)
      case Failed(world) => s, status := r.(world := world), Threw;
      case Ran(next, state, registers, world, leanRan) =>
        ghost var ranges := RangesOf(entries, items);
        s, status := AfterRun(r.(next := next, state := state, world := world), registers, leanRan, ranges, p);
    }

    /** The ranges of a run, until it stops or fails. */
    method Loop(r0: Running<W>, ghost p0: Point<W>) returns (r: Running<W>, status: Status)
      requires AllRight(entries, items, run, r0.vars) && IsAt(r0, p0, items)
      modifies this`items
      ensures |items| == |old(items)| && RangesOf(entries, items) == RangesOf(entries, old(items))
      ensures AllRight(entries, items, run, r.vars) && r.vars.Shaped()
      ensures status != Going && IsEnd(r, status, ChainSpec.Run(RangesOf(entries, items), p0, false), items)
    {
      r := r0;
      ghost var p, ranges := p0, RangesOf(entries, items);
      while true
        invariant |items| == |old(items)| && RangesOf(entries, items) == ranges
        invariant AllRight(entries, items, run, r.vars) && IsAt(r, p, items)
        invariant ChainSpec.Run(ranges, p, false) == ChainSpec.Run(ranges, p0, false)
        decreases r.budget
      {
        ghost var after := Step(ranges, p, false);
        r, status := Advance(r, p);
        if status != Going {
          return;
        }
        p := after.point;
      }
    }

    /** Takes all ranges out. */
    method Clear()
      requires Valid()
      modifies this
      ensures Valid() && entries == map[]
    {
      entries, items := map[], [];
    }

    /** A range that is to be replaced soon is counted on for so many executions more before Lean has it back. */
    method Optimizing(pc: U64, executions: U64)
      requires Valid()
      modifies this`items
      ensures Valid() && |items| == |old(items)|
      ensures forall i | 0 <= i < |items| ::
                items[i] == if pc in entries && i == entries[pc]
                            then old(items)[i].(optimizeAt := Added(old(items)[i].executions, executions)) else old(items)[i]
    {
      if pc in entries {
        var i := entries[pc];
        assert Resting(items[i]);
        ghost var before := items;
        items := items[i := items[i].(optimizeAt := Added(items[i].executions, executions))];
        forall j | 0 <= j < |items| ensures Resting(items[j]) {
          assert Resting(before[j]);
        }
      }
    }

    /** Puts a range in, if what it says of slots is of slots that it has. What went to one that it replaces is to look
        again. */
    method Add(pc: U64, range: Range<W>, executions: U64, optimizeAt: U64) returns (ok: bool)
      requires Valid()
      modifies this
      ensures Valid() && ok == Fits(range)
      ensures !ok ==> entries == old(entries) && items == old(items)
      ensures ok ==> entries == old(entries)[pc := |old(items)|] && |items| == |old(items)| + 1
                     && items[|old(items)|].range == range && items[|old(items)|].executions == executions
                     && items[|old(items)|].optimizeAt == optimizeAt
      ensures ok ==> forall i | 0 <= i < |old(items)| ::
                items[i] == if pc in old(entries) then old(items)[i].(lastTarget := None) else old(items)[i]
    {
      ok := Fits(range);
      if !ok {
        return;
      }
      ghost var before, were := items, entries;
      forall i | 0 <= i < |items| ensures Resting(items[i]) {}
      if pc in entries {
        items := seq(|items|, i requires 0 <= i < |items| reads this => items[i].(lastTarget := None));
      }
      var item := Item(range, Flagged(range.outputs), executions, optimizeAt, NONE, None, 0, 0, false, 0, 0);
      entries, items := entries[pc := |items|], items + [item];
      forall i | 0 <= i < |items| ensures Resting(items[i]) {
        if i < |before| {
          assert TargetIsRight(were, before[i]) && RangeIsRight(before[i]);
        }
      }
    }

    /** The variables at the start of a run. */
    method Given(variables: seq<nat>, values: seq<U64>, count: nat) returns (vars: Vars)
      requires |variables| == |values|
      ensures AreGiven(vars, variables, values, count) && Listed(vars)
    {
      vars := Vars(Zeros(count), seq(count, _ => 0), []);
      for k := 0 to |variables|
        invariant AreGiven(vars, variables[..k], values[..k], count)
      {
        GivenOne(vars, variables, values, count, k);
        vars := Ensure(vars, variables[k]);
        vars := vars.(registers := vars.registers[variables[k] := values[k]], bound := vars.bound[variables[k] := 1]);
      }
      assert variables[..|variables|] == variables && values[..|values|] == values;
    }

    lemma GivenOne(vars: Vars, variables: seq<nat>, values: seq<U64>, count: nat, k: nat)
      requires |variables| == |values| && k < |variables| && AreGiven(vars, variables[..k], values[..k], count)
      ensures var e := Ensure(vars, variables[k]);
              AreGiven(e.(registers := e.registers[variables[k] := values[k]], bound := e.bound[variables[k] := 1]),
                       variables[..k + 1], values[..k + 1], count)
    {
      var e, some, more := Ensure(vars, variables[k]), variables[..k], variables[..k + 1];
      var given := e.(registers := e.registers[variables[k] := values[k]], bound := e.bound[variables[k] := 1]);
      assert more == some + [variables[k]];
      forall v: nat
        ensures (given.Bound(v) <==> v in more) && !given.Written(v) && (!given.Bound(v) ==> Get(given.registers, v) == 0) {
        assert (e.Bound(v) <==> vars.Bound(v)) && (e.Written(v) <==> vars.Written(v));
        assert (vars.Bound(v) <==> v in some) && !vars.Written(v);
        assert Get(e.registers, v) == Get(vars.registers, v);
      }
      forall j | 0 <= j < |more| && more[j] !in more[j + 1..]
        ensures Get(given.registers, more[j]) == values[..k + 1][j] {
        if j < k {
          assert more[j] != variables[k] by {
            assert more[j + 1..][k - j - 1] == variables[k];
          }
          assert some[j + 1..] <= more[j + 1..];
          assert some[j] !in some[j + 1..];
          assert Get(e.registers, more[j]) == Get(vars.registers, more[j]);
        }
      }
    }

    /** At the end of a run, what it counted is said, or taken back if it failed. */
    method Rest(touched: seq<nat>, failed: bool)
      requires Placed(entries, |items|) && Orderly(LedgerOf(items, touched))
      requires forall i | 0 <= i < |items| :: TargetIsRight(entries, items[i]) && RangeIsRight(items[i])
                                             && items[i].outputsSaid <= run && items[i].readyIn <= run
      modifies this`items
      ensures Valid() && |items| == |old(items)| && RangesOf(entries, items) == RangesOf(entries, old(items))
      ensures ExecutionsOf(items) == if failed then TakenBack(LedgerOf(old(items), touched)) else ExecutionsOf(old(items))
    {
      ghost var l := LedgerOf(items, touched);
      for k := 0 to |touched|
        invariant |items| == |old(items)|
        invariant forall i | 0 <= i < |items| ::
                    items[i] == if i in touched[..k] then Rested(old(items)[i], failed) else old(items)[i]
      {
        assert touched[..k + 1] == touched[..k] + [touched[k]];
        assert touched[k] !in touched[..k];
        items := items[touched[k] := Rested(items[touched[k]], failed)];
      }
      assert touched[..|touched|] == touched;
      forall i | 0 <= i < |items|
        ensures Resting(items[i]) && items[i].range == old(items)[i].range && items[i].optimizeAt == old(items)[i].optimizeAt
        ensures items[i].executions ==
                if failed then Restored(old(items)[i].executions, old(items)[i].executed) else old(items)[i].executions {
        assert TargetIsRight(entries, old(items)[i]) && RangeIsRight(old(items)[i]);
        assert i in l.order <==> l.runs[i] > 0;
      }
    }

    /** A whole run, from the range that starts at a pc: what running its ranges one at a time comes to, with the
        slots and registers that each leaves used again; and, if each depends on just what it may read, what that comes to
        with slots and registers made anew of the variables. What it says that it chained is what it counts of each range,
        within the budget, and no variable is there twice. */
    method Run(firstId: U64, firstPc: U64, state: seq<U64>, firstBudget: U64, variables: seq<nat>, values: seq<U64>,
               count: nat, world: W)
      returns (result: Result<W>, ghost vars: Vars)
      requires Valid() && |variables| == |values|
      modifies this`items, this`run
      ensures Valid() && |items| == |old(items)| && RangesOf(entries, items) == RangesOf(entries, old(items))
      ensures AreGiven(vars, variables, values, count)
      ensures result.Refused? <==> firstPc !in entries || old(items)[entries[firstPc]].range.id != firstId
                                   || |state| < old(items)[entries[firstPc]].range.slotCount
      ensures result.Refused? ==> items == old(items)
      ensures !result.Refused? ==>
                var ranges := RangesOf(entries, items);
                var start := StartAt(entries[firstPc], state, vars, firstBudget, world, ExecutionsOf(old(items)));
                && start.In(ranges) && GivesBack(result, ranges, ChainSpec.Run(ranges, start, false), ExecutionsOf(items))
                && (AllRespect(ranges) ==>
                      GivesBackTold(result, ranges, ChainSpec.Run(ranges, start, true), ExecutionsOf(items)))
      ensures result.Done? ==> result.chained == SumOfReport(result.report) <= firstBudget
      ensures result.Done? ==> forall j, k | 0 <= j < k < |result.written| :: result.written[j].0 != result.written[k].0
    {
      var given := Given(variables, values, count);
      vars := given;
      if firstPc !in entries || items[entries[firstPc]].range.id != firstId
         || |state| < items[entries[firstPc]].range.slotCount {
        return Refused, vars;
      }
      run := run + 1;
      result := RunFrom(entries[firstPc], state, given, firstBudget, world);
    }

    method RunFrom(current: nat, state: seq<U64>, vars: Vars, budget: U64, world: W) returns (result: Result<W>)
      requires current < |items| && vars.Shaped() && Listed(vars) && run > 0 && Placed(entries, |items|)
      requires items[current].range.slotCount <= |state|
      requires forall i | 0 <= i < |items| ::
                 Rests(entries, items[i]) && items[i].outputsSaid < run && items[i].readyIn < run
      modifies this`items
      ensures Valid() && |items| == |old(items)| && RangesOf(entries, items) == RangesOf(entries, old(items))
      ensures !result.Refused?
      ensures var ranges := RangesOf(entries, items);
              var start := StartAt(current, state, vars, budget, world, ExecutionsOf(old(items)));
              && start.In(ranges) && GivesBack(result, ranges, ChainSpec.Run(ranges, start, false), ExecutionsOf(items))
              && (AllRespect(ranges) ==>
                    GivesBackTold(result, ranges, ChainSpec.Run(ranges, start, true), ExecutionsOf(items)))
      ensures result.Done? ==> result.chained == SumOfReport(result.report) <= budget
      ensures result.Done? ==> forall j, k | 0 <= j < k < |result.written| :: result.written[j].0 != result.written[k].0
    {
      BeginsRight(entries, items, run, vars);
      ghost var ranges, executions := RangesOf(entries, items), ExecutionsOf(items);
      ghost var start := StartAt(current, state, vars, budget, world, executions);
      var status;
      var r := Running(current, state, [], vars, budget, 0, world, true, [], 0);
      r, status := Loop(r, start);
      NewIsKept(executions, vars);
      RunIsKept(ranges, executions, start, false);
      result := GiveBack(r, status == Threw, ranges, executions, ChainSpec.Run(ranges, start, false), budget);
      if AllRespect(ranges) {
        GivesBackAnew(result, ranges, start, ExecutionsOf(items));
      }
    }

    /** What a run gives back at its end. */
    method GiveBack(r: Running<W>, failed: bool, ghost ranges: Ranges<W>, ghost start: seq<U64>, ghost end: End<W>,
                    ghost most: nat)
      returns (result: Result<W>)
      requires AllRight(entries, items, run, r.vars) && IsEnd(r, if failed then Threw else Stopped, end, items)
      requires ranges == RangesOf(entries, items) && EndsKept(start, end, most)
      modifies this`items
      ensures Valid() && |items| == |old(items)| && RangesOf(entries, items) == ranges
      ensures !result.Refused? && GivesBack(result, ranges, end, ExecutionsOf(items))
      ensures result.Done? ==> result.chained == SumOfReport(result.report) <= most
      ensures result.Done? ==> forall j, k | 0 <= j < k < |result.written| :: result.written[j].0 != result.written[k].0
    {
      EndsRight(entries, items, run, r.vars);
      if failed {
        result := RunFailed(r.world);
      } else {
        ReportIsBy(entries, items, r.touched);
        ReportSums(items, r.touched);
        result := Done(items[r.current].range.id, r.chained, items[r.current].range.direct, Written(r.vars),
                       ReportOf(items, r.touched), r.next, r.state, r.world);
      }
      Rest(r.touched, failed);
    }
  }

  lemma ReportIsBy<W>(entries: map<U64, nat>, items: seq<Item<W>>, touched: seq<nat>)
    requires Orderly(LedgerOf(items, touched))
    ensures (forall k | 0 <= k < |touched| :: touched[k] < |items|)
    ensures ReportOf(items, touched) == ReportBy(RangesOf(entries, items), LedgerOf(items, touched))
  {
    forall k | 0 <= k < |touched| ensures touched[k] < |items| {
      assert LedgerOf(items, touched).order[k] < |items|;
    }
  }

  /** A run before the first of its ranges, which Lean gives the slots of. */
  function StartAt<W>(range: nat, state: seq<U64>, vars: Vars, budget: U64, world: W, executions: seq<U64>): Point<W> {
    Point(range, state, [], vars, budget, 0, world, true, NewLedger(executions))
  }
}
