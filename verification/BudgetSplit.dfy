/** The budget split of the optimizing compiler (native/bap_jit.cpp:1072-1190).

    A control-flow graph checks a budget at the end of some of its blocks and leaves when it is zero. The pass makes
    a fast copy without those checks, and guards it: one guard at the start, and one at each target of a jump back
    that a search in depth finds. A guard goes to the fast copy while the budget is at least the number of checks
    there are, and to the original blocks otherwise. */
module BudgetSplit {
  import opened BlockGraph
  import opened DepthSearch
  import opened Programs

  // ---------- What comes in ----------

  function ToSlow(term: Term<nat>): Term<Place> {
    match term
    case Return => Return
    case Jump(to) => Jump(Slow(to))
    case Branch(yes, no) => Branch(Slow(yes), Slow(no))
    case Check(go, leave) => Check(Slow(go), Slow(leave))
  }

  function BlockNode(blocks: seq<Block>, b: nat): Node
    requires b < |blocks|
  {
    Run(b, ToSlow(blocks[b].term))
  }

  /** The blocks as they are. */
  function Original(blocks: seq<Block>): Program {
    Program(map b | 0 <= b < |blocks| :: Slow(b) := BlockNode(blocks, b), Slow(0))
  }

  ghost function CheckSet(blocks: seq<Block>): set<nat> {
    set b | 0 <= b < |blocks| && blocks[b].term.Check?
  }

  /** What the budget slot is for. A check that goes on gives a credit of one, which the blocks after it may spend:
      nothing else lowers the budget. In what is lowered, the code site of the block lies between the check and the
      subtraction, which is why the two may be in different blocks. */
  datatype Accounts = Accounts(credit: seq<nat>, spend: seq<nat>)

  ghost predicate KeepsAccounts<S(!new)>(sem: Semantics<S>, blocks: seq<Block>, accounts: Accounts)
    requires WellFormed(blocks)
  {
    && |accounts.credit| == |accounts.spend| == |blocks|
    && accounts.credit[0] == 0
    && forall b | 0 <= b < |blocks| ::
         && accounts.spend[b] <= accounts.credit[b] <= 1
         && (forall from, s :: sem.budget(s) <= sem.budget(sem.effect(b, from, s)) + accounts.spend[b])
         && (!blocks[b].phi ==> forall from, other, s :: sem.effect(b, from, s) == sem.effect(b, other, s))
         && (forall t <- FastTargets(blocks, b) ::
               blocks[b].term.Check? || accounts.credit[t] <= accounts.credit[b] - accounts.spend[b])
  }

  // ---------- The pass ----------

  /** An edge to a target goes through its guard. */
  function Aim(targets: set<nat>, t: nat): Place { if t in targets then Guard(t) else Fast(t) }

  function ToFast(targets: set<nat>, term: Term<nat>): Term<Place> {
    match term
    case Return => Return
    case Jump(to) => Jump(Aim(targets, to))
    case Branch(yes, no) => Branch(Aim(targets, yes), Aim(targets, no))
    case Check(go, _) => Jump(Aim(targets, go))
  }

  /** The node of a place in what comes out, with `checks` checks in what came in. */
  function NodeAt(blocks: seq<Block>, targets: set<nat>, checks: nat, place: Place): Node
    requires 0 < |blocks| && ((place.Slow? || place.Fast?) ==> place.block < |blocks|)
  {
    match place
    case Slow(b) => BlockNode(blocks, b)
    case Fast(b) => Run(b, ToFast(targets, blocks[b].term))
    case Guard(b) => Budget(checks, Fast(b), Slow(b))
    case Start => Budget(checks, Fast(0), Slow(0))
  }

  predicate HasPlace(blocks: seq<Block>, targets: set<nat>, place: Place) {
    match place
    case Slow(b) => b < |blocks|
    case Fast(b) => b < |blocks|
    case Guard(b) => b in targets
    case Start => true
  }

  /** What the pass makes of the blocks, with these targets of jumps back. */
  ghost predicate IsSplit(blocks: seq<Block>, targets: set<nat>, program: Program) {
    && 0 < |blocks|
    && program.entry == Start
    && (forall place :: place in program.nodes <==> HasPlace(blocks, targets, place))
    && (forall place <- program.nodes ::
          program.nodes[place] == NodeAt(blocks, targets, |CheckSet(blocks)|, place))
  }

  method CountChecks(blocks: seq<Block>) returns (checks: nat)
    ensures checks == |CheckSet(blocks)|
  {
    checks := 0;
    for b := 0 to |blocks|
      invariant checks == |set c | 0 <= c < b && blocks[c].term.Check?|
    {
      ghost var before := set c | 0 <= c < b && blocks[c].term.Check?;
      assert (set c | 0 <= c < b + 1 && blocks[c].term.Check?) == if blocks[b].term.Check? then before + {b} else before;
      if blocks[b].term.Check? {
        checks := checks + 1;
      }
    }
    assert (set c | 0 <= c < |blocks| && blocks[c].term.Check?) == CheckSet(blocks);
  }

  /** Whether none of the targets that were found merges values. */
  method ArePlain(blocks: seq<Block>, found: seq<nat>) returns (plain: bool)
    requires forall k | 0 <= k < |found| :: found[k] < |blocks|
    ensures plain <==> forall t <- found :: !blocks[t].phi
  {
    plain := true;
    for i := 0 to |found|
      invariant plain <==> forall k | 0 <= k < i :: !blocks[found[k]].phi
    {
      plain := plain && !blocks[found[i]].phi;
    }
  }

  /** The budget split: of a graph with checks, and with no target that merges values, as a guard would come between
      it and those that it merges them from. What isn't split stays as it was. */
  method SplitBudget(blocks: seq<Block>)
    returns (program: Program, targets: set<nat>, ghost reached: set<nat>, ghost rank: seq<nat>)
    requires WellFormed(blocks)
    ensures Certificate(blocks, reached, targets, rank) && AreTargets(blocks, targets)
    ensures if CheckSet(blocks) != {} && (forall t <- targets :: !blocks[t].phi)
            then IsSplit(blocks, targets, program) else program == Original(blocks)
  {
    program := Original(blocks);
    var checks := CountChecks(blocks);
    var found: seq<nat>;
    found, reached, rank := FindTargets(blocks);
    targets := set t <- found;
    if checks != 0 {
      assert forall k | 0 <= k < |found| :: found[k] in targets;
      var plain := ArePlain(blocks, found);
      if plain {
        program := Assemble(blocks, targets, checks);
        AssembleIsSplit(blocks, targets, checks);
      }
    }
  }

  /** The original blocks, the copies, the guards of the targets, and the guard at the start. */
  function Assemble(blocks: seq<Block>, targets: set<nat>, checks: nat): Program
    requires |blocks| > 0
  {
    var copies := map b | 0 <= b < |blocks| :: Fast(b) := NodeAt(blocks, targets, checks, Fast(b));
    var guards := map t <- targets :: Guard(t) := NodeAt(blocks, targets, checks, Guard(t));
    Program((Original(blocks).nodes + copies + guards)[Start := NodeAt(blocks, targets, checks, Start)], Start)
  }

  lemma AssembleIsSplit(blocks: seq<Block>, targets: set<nat>, checks: nat)
    requires |blocks| > 0 && checks == |CheckSet(blocks)|
    ensures IsSplit(blocks, targets, Assemble(blocks, targets, checks))
  {
    var program := Assemble(blocks, targets, checks);
    forall place ensures place in program.nodes <==> HasPlace(blocks, targets, place) {}
    forall place | place in program.nodes ensures program.nodes[place] == NodeAt(blocks, targets, checks, place) {}
  }

  // ---------- Why the fast copy never misses a check ----------

  /** All that the proof has of a split: what the blocks do, the search, and the program that came out. */
  datatype Split<!S(!new)> = Split(
    sem: Semantics<S>, blocks: seq<Block>, accounts: Accounts,
    reached: set<nat>, targets: set<nat>, rank: seq<nat>, program: Program)

  ghost predicate Valid<S(!new)>(s: Split<S>) {
    && WellFormed(s.blocks) && KeepsAccounts(s.sem, s.blocks, s.accounts)
    && Certificate(s.blocks, s.reached, s.targets, s.rank)
    && (forall t <- s.targets :: !s.blocks[t].phi)
    && IsSplit(s.blocks, s.targets, s.program)
  }

  /** The checks that a segment may still pass from a block on. */
  ghost function Ahead<S(!new)>(s: Split<S>, b: nat): set<nat>
    requires |s.rank| == |s.blocks| && b < |s.blocks|
  {
    set c <- CheckSet(s.blocks) | s.rank[c] <= s.rank[b]
  }

  /** A block that is entered with a credit has a check behind it that no segment from it comes to again. */
  lemma {:induction false} CreditHasCheck<S(!new)>(s: Split<S>, b: nat)
    requires Valid(s) && b in s.reached && s.accounts.credit[b] == 1
    ensures exists c <- CheckSet(s.blocks) :: s.rank[b] < s.rank[c]
    decreases set c | 0 <= c < |s.blocks| && s.rank[b] < s.rank[c]
  {
    assert HasParent(s.blocks, s.reached, s.rank, b);
    var p :| p in s.reached && p < |s.blocks| && b in FastTargets(s.blocks, p) && s.rank[b] < s.rank[p];
    if s.blocks[p].term.Check? {
      assert p in CheckSet(s.blocks);
    } else {
      ghost var after := set c | 0 <= c < |s.blocks| && s.rank[p] < s.rank[c];
      assert p !in after && p in (set c | 0 <= c < |s.blocks| && s.rank[b] < s.rank[c]);
      assert after < (set c | 0 <= c < |s.blocks| && s.rank[b] < s.rank[c]);
      CreditHasCheck(s, p);
    }
  }

  /** A guard lets in with enough for any segment. */
  lemma GuardSuffices<S(!new)>(s: Split<S>, b: nat)
    requires Valid(s) && b in s.reached
    ensures |Ahead(s, b)| + s.accounts.credit[b] <= |CheckSet(s.blocks)|
  {
    var all := CheckSet(s.blocks);
    if s.accounts.credit[b] == 1 {
      CreditHasCheck(s, b);
      var c :| c in all && s.rank[b] < s.rank[c];
      Within(Ahead(s, b), all - {c});
    } else {
      Within(Ahead(s, b), all);
    }
  }

  /** An edge of a segment leaves enough for the rest of it. */
  lemma SegmentPays<S(!new)>(s: Split<S>, b: nat, t: nat)
    requires |s.rank| == |s.blocks| && b < |s.blocks| && t < |s.blocks| && s.rank[t] < s.rank[b]
    ensures |Ahead(s, t)| + (if s.blocks[b].term.Check? then 1 else 0) <= |Ahead(s, b)|
  {
    if s.blocks[b].term.Check? {
      assert b in Ahead(s, b);
      Within(Ahead(s, t), Ahead(s, b) - {b});
    } else {
      Within(Ahead(s, t), Ahead(s, b));
    }
  }

  // ---------- The two programs, side by side ----------

  /** The same block of both, in the same state, entered from the same block if that makes a difference; and in the
      fast copy, with enough in the budget for every check ahead. */
  ghost predicate Together<S(!new)>(s: Split<S>, o: Config<S>, c: Config<S>)
    requires |s.accounts.credit| == |s.blocks| == |s.rank|
  {
    && o.at.Slow? && o.at.block < |s.blocks| && o.state == c.state
    && (!c.at.Start? ==> c.at.block == o.at.block)
    && match c.at
       case Slow(b) => o.from == c.from || !s.blocks[b].phi
       case Fast(b) =>
         && (o.from == c.from || !s.blocks[b].phi) && b in s.reached
         && |Ahead(s, b)| + s.accounts.credit[b] <= s.sem.budget(c.state)
       case Guard(b) => b in s.targets
       case Start => o.at == Slow(0)
  }

  /** A guard goes to the same block of one copy or the other. */
  lemma GuardTogether<S(!new)>(s: Split<S>, o: Config<S>, c: Config<S>)
    requires Valid(s) && Together(s, o, c) && (c.at.Guard? || c.at.Start?)
    ensures c.at in s.program.nodes && s.program.nodes[c.at].Budget?
    ensures var d := Step(s.sem, s.program, c).config; (d.at.Fast? || d.at.Slow?) && Together(s, o, d)
  {
    assert HasPlace(s.blocks, s.targets, c.at);
    GuardSuffices(s, o.at.block);
  }

  /** What a block of the fast copy leaves in the budget is enough for where it goes, unless a guard is there. */
  lemma FastPays<S(!new)>(s: Split<S>, b: nat, from: Origin, state: S, t: nat)
    requires Valid(s) && b in s.reached && |Ahead(s, b)| + s.accounts.credit[b] <= s.sem.budget(state)
    requires t in FastTargets(s.blocks, b)
    ensures s.blocks[b].term.Check? ==> s.sem.budget(s.sem.effect(b, from, state)) > 0
    ensures t in s.reached && (t !in s.targets
            ==> |Ahead(s, t)| + s.accounts.credit[t] <= s.sem.budget(s.sem.effect(b, from, state)))
  {
    assert s.sem.budget(state) <= s.sem.budget(s.sem.effect(b, from, state)) + s.accounts.spend[b];
    if s.blocks[b].term.Check? {
      assert b in Ahead(s, b);
    }
    if t !in s.targets {
      SegmentPays(s, b, t);
    }
  }

  /** Whether a block that ends for one ends alike for the other, and otherwise both go on together. */
  ghost predicate GoAlike<S(!new)>(s: Split<S>, mine: Next<S>, other: Next<S>)
    requires |s.accounts.credit| == |s.blocks| == |s.rank|
  {
    && mine.shown == other.shown
    && (if mine.Ends? then other.Ends? && mine.value == other.value && mine.state == other.state
        else other.Goes? && Together(s, mine.config, other.config))
  }

  lemma SlowTogether<S(!new)>(s: Split<S>, o: Config<S>, c: Config<S>)
    requires Valid(s) && Together(s, o, c) && c.at.Slow?
    ensures o.at in Original(s.blocks).nodes && c.at in s.program.nodes && s.program.nodes[c.at].Run?
    ensures GoAlike(s, Step(s.sem, Original(s.blocks), o), Step(s.sem, s.program, c))
  {
    var b := c.at.block;
    assert HasPlace(s.blocks, s.targets, c.at) && s.program.nodes[c.at] == BlockNode(s.blocks, b);
    assert Original(s.blocks).nodes[o.at] == BlockNode(s.blocks, b);
    assert s.sem.effect(b, o.from, o.state) == s.sem.effect(b, c.from, c.state);
    assert InRange(s.blocks[b].term, |s.blocks|);
  }

  /** From the fast copy of a block, wherever it goes, with enough in the budget or to a guard. */
  lemma FastArrives<S(!new)>(s: Split<S>, o: Config<S>, c: Config<S>, t: nat)
    requires Valid(s) && Together(s, o, c) && c.at.Fast? && t in FastTargets(s.blocks, c.at.block)
    ensures var after := s.sem.effect(c.at.block, c.from, c.state);
            && (s.blocks[c.at.block].term.Check? ==> s.sem.budget(after) > 0)
            && Together(s, Config(Slow(t), FromBlock(c.at.block), after),
                        Config(Aim(s.targets, t), FromBlock(c.at.block), after))
  {
    FastPays(s, c.at.block, c.from, c.state, t);
  }

  lemma FastTogether<S(!new)>(s: Split<S>, o: Config<S>, c: Config<S>)
    requires Valid(s) && Together(s, o, c) && c.at.Fast?
    ensures o.at in Original(s.blocks).nodes && c.at in s.program.nodes && s.program.nodes[c.at].Run?
    ensures GoAlike(s, Step(s.sem, Original(s.blocks), o), Step(s.sem, s.program, c))
  {
    var b := c.at.block;
    assert HasPlace(s.blocks, s.targets, c.at) && s.program.nodes[c.at] == Run(b, ToFast(s.targets, s.blocks[b].term));
    assert s.sem.effect(b, o.from, o.state) == s.sem.effect(b, c.from, c.state);
    match s.blocks[b].term
    case Return =>
    case Jump(to) => FastArrives(s, o, c, to);
    case Branch(yes, no) => FastArrives(s, o, c, if s.sem.taken(b, s.sem.effect(b, c.from, c.state)) then yes else no);
    case Check(go, _) => FastArrives(s, o, c, go);
  }

  /** A block does the same in both, and goes to the same block. */
  lemma BlockTogether<S(!new)>(s: Split<S>, o: Config<S>, c: Config<S>)
    requires Valid(s) && Together(s, o, c) && (c.at.Fast? || c.at.Slow?)
    ensures o.at in Original(s.blocks).nodes && c.at in s.program.nodes && s.program.nodes[c.at].Run?
    ensures GoAlike(s, Step(s.sem, Original(s.blocks), o), Step(s.sem, s.program, c))
  {
    if c.at.Fast? {
      FastTogether(s, o, c);
    } else {
      SlowTogether(s, o, c);
    }
  }

  ghost function Relation<S(!new)>(s: Split<S>): (Config<S>, Config<S>) -> bool {
    (o, c) => Valid(s) && Together(s, o, c)
  }

  lemma BothClosed<S(!new)>(s: Split<S>)
    requires Valid(s)
    ensures Closed(Original(s.blocks)) && Closed(s.program)
  {
    OriginalCloses(s.blocks);
    assert HasPlace(s.blocks, s.targets, Start);
    forall at | at in s.program.nodes ensures Leads(s.program, at) {
      assert HasPlace(s.blocks, s.targets, at);
      assert s.program.nodes[at] == NodeAt(s.blocks, s.targets, |CheckSet(s.blocks)|, at);
      if at.Slow? || at.Fast? {
        assert InRange(s.blocks[at.block].term, |s.blocks|);
      }
    }
  }

  lemma RelationSimulates<S(!new)>(s: Split<S>)
    requires Valid(s)
    ensures Closed(Original(s.blocks)) && Closed(s.program) && Simulates(s.sem, Original(s.blocks), s.program, Relation(s))
  {
    BothClosed(s);
    forall o, c | Relation(s)(o, c) ensures Matches(s.sem, Original(s.blocks), s.program, Relation(s), o, c) {
      var d := c;
      if c.at.Guard? || c.at.Start? {
        GuardTogether(s, o, c);
        d := Step(s.sem, s.program, c).config;
      }
      BlockTogether(s, o, d);
    }
  }

  /** However far the original blocks run, what the pass made of them runs as far, of at most twice as many nodes,
      and the same to everything outside; and the other way round. So both end, or neither does. */
  lemma SplitIsInvisible<S(!new)>(s: Split<S>, state: S)
    requires Valid(s)
    ensures Closed(Original(s.blocks)) && Closed(s.program)
    ensures forall fuel: nat :: DoesAsMuch(s.sem, Original(s.blocks), s.program, state, fuel)
    ensures forall steps: nat :: DoesNoMore(s.sem, Original(s.blocks), s.program, state, steps)
  {
    RelationSimulates(s);
    SimulationIsInvisible(s.sem, Original(s.blocks), s.program, Relation(s), state);
  }

  lemma Within(small: set<nat>, large: set<nat>)
    requires small <= large
    ensures |small| <= |large|
  {
    assert large == small + (large - small);
  }

  /** What `SplitBudget` gives for a graph, split or not, does what the graph does, and no more. */
  lemma EitherWayTheSame<S(!new)>(
      sem: Semantics<S>, blocks: seq<Block>, accounts: Accounts, reached: set<nat>, targets: set<nat>, rank: seq<nat>,
      program: Program, state: S)
    requires WellFormed(blocks) && KeepsAccounts(sem, blocks, accounts) && Certificate(blocks, reached, targets, rank)
    requires if CheckSet(blocks) != {} && (forall t <- targets :: !blocks[t].phi)
             then IsSplit(blocks, targets, program) else program == Original(blocks)
    ensures Closed(Original(blocks)) && Closed(program)
    ensures forall fuel: nat :: DoesAsMuch(sem, Original(blocks), program, state, fuel)
    ensures forall steps: nat :: DoesNoMore(sem, Original(blocks), program, state, steps)
  {
    var original := Original(blocks);
    OriginalCloses(blocks);
    if program == original {
      forall fuel: nat
        ensures DoesAsMuch(sem, original, program, state, fuel) && DoesNoMore(sem, original, program, state, fuel) {
        assert Same(RunOf(sem, original, state, fuel), RunOf(sem, program, state, fuel));
      }
    } else {
      SplitIsInvisible(Split(sem, blocks, accounts, reached, targets, rank, program), state);
    }
  }

  lemma OriginalCloses(blocks: seq<Block>)
    requires WellFormed(blocks)
    ensures Closed(Original(blocks))
  {
    var original := Original(blocks);
    forall at | at in original.nodes ensures Leads(original, at) {
      assert InRange(blocks[at.block].term, |blocks|);
    }
  }
}
