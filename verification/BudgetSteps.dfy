/** What runs of the graphs of the budget split do at each place (native/bap_jit.cpp:1072-1190), apart from how a step is
    worked out: at a block, at its fast copy, and at a guard. */
module BudgetSteps {
  import opened BlockGraph
  import opened BudgetSplit
  import opened Programs

  /** A block as the graph has it: it ends there with its value, or goes where its end says, by the state that it left. */
  lemma BlockDoes<S>(sem: Semantics<S>, blocks: seq<Block>, b: nat, from: Origin, state: S)
    requires b < |blocks|
    ensures var after := sem.effect(b, from, state);
            var program, c := Original(blocks), Config(Slow(b), from, state);
            && c.at in program.nodes
            && match blocks[b].term
               case Return => Step(sem, program, c) == Ends(sem.value(b, after), after, [Did(b, after)])
               case Jump(to) => Step(sem, program, c) == Goes(Config(Slow(to), FromBlock(b), after), [Did(b, after)])
               case Branch(yes, no) =>
                 && (sem.taken(b, after) ==>
                       Step(sem, program, c) == Goes(Config(Slow(yes), FromBlock(b), after), [Did(b, after)]))
                 && (!sem.taken(b, after) ==>
                       Step(sem, program, c) == Goes(Config(Slow(no), FromBlock(b), after), [Did(b, after)]))
               case Check(go, leave) =>
                 && (sem.budget(after) > 0 ==>
                       Step(sem, program, c) == Goes(Config(Slow(go), FromBlock(b), after), [Did(b, after)]))
                 && (sem.budget(after) == 0 ==>
                       Step(sem, program, c) == Goes(Config(Slow(leave), FromBlock(b), after), [Did(b, after)]))
  {
  }

  /** The blocks of a split that are as they were: they stay among those. */
  lemma SlowDoes<S>(sem: Semantics<S>, blocks: seq<Block>, targets: set<nat>, program: Program, b: nat, from: Origin, state: S)
    requires IsSplit(blocks, targets, program) && b < |blocks|
    ensures Slow(b) in program.nodes
    ensures Step(sem, program, Config(Slow(b), from, state)) == Step(sem, Original(blocks), Config(Slow(b), from, state))
  {
    assert HasPlace(blocks, targets, Slow(b));
  }

  /** Whether a place is where the fast copy of a block is entered: by its guard, for a target of a jump back. */
  ghost predicate Enters(targets: set<nat>, b: nat, at: Place) {
    (b in targets ==> at == Guard(b)) && (b !in targets ==> at == Fast(b))
  }

  /** Whether a run goes on at the fast copy of a block, having done another. */
  ghost predicate GoesTo<S>(next: Next<S>, targets: set<nat>, to: nat, b: nat, after: S) {
    && next.Goes? && Enters(targets, to, next.config.at)
    && next == Goes(Config(next.config.at, FromBlock(b), after), [Did(b, after)])
  }

  /** The fast copy of a block: it does the same and goes to fast copies, but for what was a check, which is gone: that goes
      on, whatever the budget. */
  lemma FastDoes<S>(sem: Semantics<S>, blocks: seq<Block>, targets: set<nat>, program: Program, b: nat, from: Origin, state: S)
    requires IsSplit(blocks, targets, program) && b < |blocks|
    ensures Fast(b) in program.nodes && program.nodes[Fast(b)].Run? && !program.nodes[Fast(b)].term.Check?
    ensures var after, next := sem.effect(b, from, state), Step(sem, program, Config(Fast(b), from, state));
            match blocks[b].term
            case Return => next == Ends(sem.value(b, after), after, [Did(b, after)])
            case Jump(to) => GoesTo(next, targets, to, b, after)
            case Branch(yes, no) =>
              (sem.taken(b, after) ==> GoesTo(next, targets, yes, b, after))
              && (!sem.taken(b, after) ==> GoesTo(next, targets, no, b, after))
            case Check(go, _) => GoesTo(next, targets, go, b, after)
  {
    assert HasPlace(blocks, targets, Fast(b));
  }

  /** The guards, which are one at the start and one at each target: to the fast copy while there is a budget for every check
      of the graph, and otherwise to the blocks as they were; nothing is done. */
  lemma GuardDoes<S>(sem: Semantics<S>, blocks: seq<Block>, targets: set<nat>, program: Program, b: nat, from: Origin, state: S)
    requires IsSplit(blocks, targets, program)
    ensures program.entry == Start && Start in program.nodes && (Guard(b) in program.nodes <==> b in targets)
    ensures forall at <- program.nodes | at == Start || at == Guard(b) ::
              var entered := if at == Start then 0 else b;
              var enough := sem.budget(state) >= |set c | 0 <= c < |blocks| && blocks[c].term.Check?|;
              && (enough ==>
                    Step(sem, program, Config(at, from, state)) == Goes(Config(Fast(entered), FromNowhere, state), []))
              && (!enough ==>
                    Step(sem, program, Config(at, from, state)) == Goes(Config(Slow(entered), FromNowhere, state), []))
  {
    assert HasPlace(blocks, targets, Start);
    assert HasPlace(blocks, targets, Guard(b)) <==> b in targets;
    assert CheckSet(blocks) == set c | 0 <= c < |blocks| && blocks[c].term.Check?;
  }

  /** What a run of one node does. */
  lemma OneNode<S>(sem: Semantics<S>, program: Program, c: Config<S>)
    requires Closed(program) && c.at in program.nodes
    ensures RunFrom(sem, program, c, 0) == Running(c, [])
    ensures match Step(sem, program, c)
            case Ends(value, state, shown) => RunFrom(sem, program, c, 1) == Finished(value, state, shown)
            case Goes(config, shown) => RunFrom(sem, program, c, 1) == Running(config, shown)
  {
    assert Leads(program, c.at);
    match Step(sem, program, c)
    case Ends(_, _, _) =>
    case Goes(config, shown) =>
      assert RunFrom(sem, program, config, 0) == Running(config, []);
      assert shown + [] == shown;
  }

  /** Whether a run is what was shown of it, and then the rest. */
  ghost predicate IsThen<S>(trace: seq<Event<S>>, rest: Outcome<S>, all: Outcome<S>) {
    && all.trace == trace + rest.trace
    && match rest
       case Finished(value, state, _) => all == Finished(value, state, all.trace)
       case Running(config, _) => all == Running(config, all.trace)
  }

  lemma ShownIsThen<S>(shown: seq<Event<S>>, trace: seq<Event<S>>, rest: Outcome<S>, all: Outcome<S>)
    requires IsThen(trace, rest, all)
    ensures IsThen(shown + trace, rest, Shown(shown, all))
  {
    assert shown + (trace + rest.trace) == (shown + trace) + rest.trace;
  }

  /** A run goes on from where it got, and what it shows then comes after what it had shown; one that ended shows no more. */
  lemma {:induction false} RunsOn<S>(sem: Semantics<S>, program: Program, c: Config<S>, fuel: nat, more: nat)
    requires Closed(program) && c.at in program.nodes
    ensures match RunFrom(sem, program, c, fuel)
            case Finished(_, _, _) => RunFrom(sem, program, c, fuel + more) == RunFrom(sem, program, c, fuel)
            case Running(d, trace) =>
              && d.at in program.nodes
              && IsThen(trace, RunFrom(sem, program, d, more), RunFrom(sem, program, c, fuel + more))
    decreases fuel
  {
    assert Leads(program, c.at);
    if fuel == 0 {
      var rest := RunFrom(sem, program, c, more);
      assert [] + rest.trace == rest.trace;
    } else {
      match Step(sem, program, c)
      case Ends(_, _, _) =>
      case Goes(config, shown) =>
        RunsOn(sem, program, config, fuel - 1, more);
        var rest := RunFrom(sem, program, config, fuel - 1);
        if rest.Running? {
          ShownIsThen(shown, rest.trace, RunFrom(sem, program, rest.config, more),
                      RunFrom(sem, program, config, fuel - 1 + more));
        }
    }
  }
}
