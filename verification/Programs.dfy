/** Runs of the graphs that come in and out of the budget split (native/bap_jit.cpp:1072-1190), and what it is for two of
    them to go together block by block. */
module Programs {
  import opened BlockGraph

  /** A place of the graph that goes out: an original block, its fast copy, or the guard of a fast copy. */
  datatype Place = Slow(block: nat) | Fast(block: nat) | Guard(block: nat) | Start

  datatype Node =
    | Run(origin: nat, term: Term<Place>)
    | Budget(atLeast: nat, fast: Place, slow: Place)

  datatype Program = Program(nodes: map<Place, Node>, entry: Place)

  /** Where a run came from, as a block that merges values by predecessor sees it. A guard is no block of the graph. */
  datatype Origin = FromBlock(block: nat) | FromNowhere

  /** What blocks do to the state, where a branch goes, what a return gives, and the budget slot. */
  datatype Semantics<!S> = Semantics(
    effect: (nat, Origin, S) -> S,
    taken: (nat, S) -> bool,
    value: (nat, S) -> nat,
    budget: S -> nat)

  datatype Config<S> = Config(at: Place, from: Origin, state: S)

  /** What a run shows: each block it did, with the state that it left. */
  datatype Event<S> = Did(block: nat, state: S)

  datatype Next<S> = Goes(config: Config<S>, shown: seq<Event<S>>) | Ends(value: nat, state: S, shown: seq<Event<S>>)

  datatype Outcome<S> =
    | Finished(value: nat, state: S, trace: seq<Event<S>>)
    | Running(config: Config<S>, trace: seq<Event<S>>)

  function Follow<S>(sem: Semantics<S>, block: nat, term: Term<Place>, state: S): Place
    requires !term.Return?
  {
    match term
    case Jump(to) => to
    case Branch(yes, no) => if sem.taken(block, state) then yes else no
    case Check(go, leave) => if sem.budget(state) != 0 then go else leave
  }

  function Step<S>(sem: Semantics<S>, program: Program, c: Config<S>): Next<S>
    requires c.at in program.nodes
  {
    match program.nodes[c.at]
    case Budget(atLeast, fast, slow) =>
      Goes(Config(if sem.budget(c.state) >= atLeast then fast else slow, FromNowhere, c.state), [])
    case Run(origin, term) =>
      var state := sem.effect(origin, c.from, c.state);
      if term.Return? then Ends(sem.value(origin, state), state, [Did(origin, state)])
      else Goes(Config(Follow(sem, origin, term, state), FromBlock(origin), state), [Did(origin, state)])
  }

  function Shown<S>(shown: seq<Event<S>>, rest: Outcome<S>): Outcome<S> {
    match rest
    case Finished(value, state, trace) => Finished(value, state, shown + trace)
    case Running(config, trace) => Running(config, shown + trace)
  }

  /** Whether where a node goes is in the program. */
  ghost predicate Leads(program: Program, at: Place)
    requires at in program.nodes
  {
    match program.nodes[at]
    case Budget(_, fast, slow) => fast in program.nodes && slow in program.nodes
    case Run(_, Return) => true
    case Run(_, Jump(to)) => to in program.nodes
    case Run(_, Branch(yes, no)) => yes in program.nodes && no in program.nodes
    case Run(_, Check(go, leave)) => go in program.nodes && leave in program.nodes
  }

  ghost predicate Closed(program: Program) {
    program.entry in program.nodes && forall at {:trigger Leads(program, at)} | at in program.nodes :: Leads(program, at)
  }

  /** A run of at most `fuel` nodes. */
  function RunFrom<S>(sem: Semantics<S>, program: Program, c: Config<S>, fuel: nat): Outcome<S>
    requires Closed(program) && c.at in program.nodes
    decreases fuel
  {
    assert Leads(program, c.at);
    if fuel == 0 then Running(c, [])
    else match Step(sem, program, c)
      case Ends(value, state, shown) => Finished(value, state, shown)
      case Goes(config, shown) => Shown(shown, RunFrom(sem, program, config, fuel - 1))
  }

  /** Whether `q`, with guards, does what `p` does in `fuel` nodes: in at most two for each, as a guard is passed at
      most once a block. */
  ghost predicate DoesAsMuch<S>(sem: Semantics<S>, p: Program, q: Program, state: S, fuel: nat)
    requires Closed(p) && Closed(q)
  {
    exists steps: nat :: fuel <= steps <= 2 * fuel && Same(RunOf(sem, p, state, fuel), RunOf(sem, q, state, steps))
  }

  /** And whether all that `q` does in `steps` nodes is what `p` does. */
  ghost predicate DoesNoMore<S>(sem: Semantics<S>, p: Program, q: Program, state: S, steps: nat)
    requires Closed(p) && Closed(q)
  {
    exists fuel: nat :: fuel <= steps <= 2 * fuel + 1 && Same(RunOf(sem, p, state, fuel), RunOf(sem, q, state, steps))
  }

  function RunOf<S>(sem: Semantics<S>, program: Program, state: S, fuel: nat): Outcome<S>
    requires Closed(program)
  {
    RunFrom(sem, program, Config(program.entry, FromNowhere, state), fuel)
  }

  /** The same to everything outside: the same blocks in the same order, the same states, and the same end if any. */
  ghost predicate Same<S>(a: Outcome<S>, b: Outcome<S>) {
    && a.trace == b.trace
    && (a.Finished? <==> b.Finished?)
    && (if a.Finished? then a.value == b.value && a.state == b.state else a.config.state == b.config.state)
  }

  // ---------- Programs that go together block by block ----------

  /** Where a run is once it is past the guard before a block, if there is one. */
  function Past<S>(sem: Semantics<S>, program: Program, c: Config<S>): Config<S>
    requires c.at in program.nodes
  {
    if program.nodes[c.at].Budget? then Step(sem, program, c).config else c
  }

  /** The first program does a block, and the second, past its guard, does the same. */
  ghost predicate Matches<S(!new)>(
      sem: Semantics<S>, p: Program, q: Program, related: (Config<S>, Config<S>) -> bool, o: Config<S>, c: Config<S>)
  {
    && o.at in p.nodes && c.at in q.nodes && o.state == c.state
    && var d := Past(sem, q, c);
    && d.at in q.nodes
    && var mine, other := Step(sem, p, o), Step(sem, q, d);
    && mine.shown == other.shown
    && (if mine.Ends? then other.Ends? && mine.value == other.value && mine.state == other.state
        else other.Goes? && related(mine.config, other.config))
  }

  ghost predicate Simulates<S(!new)>(
      sem: Semantics<S>, p: Program, q: Program, related: (Config<S>, Config<S>) -> bool)
  {
    forall o, c {:trigger Matches(sem, p, q, related, o, c)} | related(o, c) :: Matches(sem, p, q, related, o, c)
  }

  /** A block and what follows it, of both. */
  lemma BlockThenSame<S(!new)>(sem: Semantics<S>, p: Program, q: Program, o: Config<S>, d: Config<S>, m: nat, n: nat)
    requires Closed(p) && Closed(q) && o.at in p.nodes && d.at in q.nodes && Leads(p, o.at) && Leads(q, d.at)
    requires var mine, other := Step(sem, p, o), Step(sem, q, d);
             && mine.shown == other.shown
             && (if mine.Ends? then other.Ends? && mine.value == other.value && mine.state == other.state
                 else other.Goes? && Same(RunFrom(sem, p, mine.config, m), RunFrom(sem, q, other.config, n)))
    ensures Same(RunFrom(sem, p, o, m + 1), RunFrom(sem, q, d, n + 1))
  {
  }

  /** A guard and what follows it. */
  lemma GuardThenRest<S(!new)>(sem: Semantics<S>, q: Program, c: Config<S>, n: nat)
    requires Closed(q) && c.at in q.nodes && Leads(q, c.at) && q.nodes[c.at].Budget?
    ensures RunFrom(sem, q, c, n + 1) == RunFrom(sem, q, Past(sem, q, c), n)
  {
    ShownNothing(RunFrom(sem, q, Past(sem, q, c), n));
  }

  lemma {:induction false} Forward<S(!new)>(
      sem: Semantics<S>, p: Program, q: Program, related: (Config<S>, Config<S>) -> bool,
      o: Config<S>, c: Config<S>, fuel: nat) returns (steps: nat)
    requires Closed(p) && Closed(q) && Simulates(sem, p, q, related) && related(o, c)
    ensures o.at in p.nodes && c.at in q.nodes && fuel <= steps <= 2 * fuel
    ensures Same(RunFrom(sem, p, o, fuel), RunFrom(sem, q, c, steps))
    decreases fuel
  {
    assert Matches(sem, p, q, related, o, c);
    if fuel == 0 {
      return 0;
    }
    var d := Past(sem, q, c);
    var mine, other := Step(sem, p, o), Step(sem, q, d);
    steps := fuel - 1;
    if mine.Goes? {
      steps := Forward(sem, p, q, related, mine.config, other.config, fuel - 1);
    }
    BlockThenSame(sem, p, q, o, d, fuel - 1, steps);
    steps := steps + 1;
    if q.nodes[c.at].Budget? {
      GuardThenRest(sem, q, c, steps);
      steps := steps + 1;
    }
  }

  lemma {:induction false} Backward<S(!new)>(
      sem: Semantics<S>, p: Program, q: Program, related: (Config<S>, Config<S>) -> bool,
      o: Config<S>, c: Config<S>, steps: nat) returns (fuel: nat)
    requires Closed(p) && Closed(q) && Simulates(sem, p, q, related) && related(o, c)
    ensures o.at in p.nodes && c.at in q.nodes && fuel <= steps <= 2 * fuel + 1
    ensures Same(RunFrom(sem, p, o, fuel), RunFrom(sem, q, c, steps))
    decreases steps
  {
    assert Matches(sem, p, q, related, o, c);
    if steps == 0 {
      return 0;
    }
    var d := Past(sem, q, c);
    var left := if q.nodes[c.at].Budget? then steps - 1 else steps;
    if q.nodes[c.at].Budget? {
      GuardThenRest(sem, q, c, left);
    }
    if left == 0 {
      return 0;
    }
    var mine, other := Step(sem, p, o), Step(sem, q, d);
    fuel := left - 1;
    if mine.Goes? {
      fuel := Backward(sem, p, q, related, mine.config, other.config, left - 1);
    }
    BlockThenSame(sem, p, q, o, d, fuel, left - 1);
    fuel := fuel + 1;
  }

  lemma SimulationIsInvisible<S(!new)>(
      sem: Semantics<S>, p: Program, q: Program, related: (Config<S>, Config<S>) -> bool, state: S)
    requires Closed(p) && Closed(q) && Simulates(sem, p, q, related)
    requires related(Config(p.entry, FromNowhere, state), Config(q.entry, FromNowhere, state))
    ensures forall fuel: nat :: DoesAsMuch(sem, p, q, state, fuel)
    ensures forall steps: nat :: DoesNoMore(sem, p, q, state, steps)
  {
    var o, c := Config(p.entry, FromNowhere, state), Config(q.entry, FromNowhere, state);
    forall fuel: nat ensures DoesAsMuch(sem, p, q, state, fuel) {
      var steps := Forward(sem, p, q, related, o, c, fuel);
      assert Same(RunOf(sem, p, state, fuel), RunOf(sem, q, state, steps));
    }
    forall steps: nat ensures DoesNoMore(sem, p, q, state, steps) {
      var fuel := Backward(sem, p, q, related, o, c, steps);
      assert Same(RunOf(sem, p, state, fuel), RunOf(sem, q, state, steps));
    }
  }

  lemma ShownNothing<S>(rest: Outcome<S>)
    ensures Shown([], rest) == rest
  {
    assert [] + rest.trace == rest.trace;
  }
}
