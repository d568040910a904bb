/** Blocks of operations that keep the contract of the budget slot: those that a graph of a range is lowered to
    (Bap/Primus/Lifted.lean:998-1016), which take one from it behind a check. */
module BudgetCases {
  import opened Basics
  import opened Operations
  import opened BlockGraph
  import opened Programs
  import opened BudgetSplit
  import Promotion

  /** What a block works on: the slots, and the memory and all else that its host has. */
  datatype State<W> = State(slots: seq<U64>, world: W)

  function Do<W>(host: Promotion.Host<W>, op: Op, s: State<W>): Promotion.Outcome<W> {
    Promotion.Step(host, [op], Promotion.Config(0, s.slots, s.world), None)
  }

  /** What an operation leaves, whether it goes on or not. */
  function AfterOp<W>(host: Promotion.Host<W>, op: Op, s: State<W>): State<W> {
    match Do(host, op, s)
    case Goes(config) => State(config.slots, config.world)
    case Returns(_, slots, world) => State(slots, world)
    case Stuck => s
  }

  /** The operations of a block, one after another, up to one that doesn't go on, such as a code site that stops. */
  function AfterOps<W>(host: Promotion.Host<W>, ops: seq<Op>, s: State<W>): State<W>
    decreases |ops|
  {
    if ops == [] then s
    else if Do(host, ops[0], s).Goes? then AfterOps(host, ops[1..], AfterOp(host, ops[0], s))
    else AfterOp(host, ops[0], s)
  }

  /** The operation that takes one from a slot: it adds 2^64 - 1. */
  function TakeOne(slot: nat): Op { AddTo(slot, slot, ONES) }

  /** Whether a block writes the budget slot only by taking one from it. */
  ghost predicate OnlyTakes(ops: seq<Op>, slot: nat) {
    forall op <- ops | Promotion.Writes(op, slot) :: op == TakeOne(slot)
  }

  /** How often it does. */
  function Taken(ops: seq<Op>, slot: nat): nat
    decreases |ops|
  {
    if ops == [] then 0 else (if ops[0] == TakeOne(slot) then 1 else 0) + Taken(ops[1..], slot)
  }

  lemma TakesOnce<W>(host: Promotion.Host<W>, op: Op, slot: nat, s: State<W>)
    requires forall args :: host.compute(op, args) == Compute(op, args)
    requires Promotion.Writes(op, slot) ==> op == TakeOne(slot)
    ensures Get(s.slots, slot) <= Get(AfterOp(host, op, s).slots, slot) + if op == TakeOne(slot) then 1 else 0
  {
    if op == TakeOne(slot) {
      assert GetAll(s.slots, Reads(op)) == [Get(s.slots, slot)];
      assert host.compute(op, [Get(s.slots, slot)]) == Wrapped(Get(s.slots, slot) + ONES);
    }
  }

  /** Whatever a block does, the budget is no less after it but for what it takes: what is taken from 0 leaves all that a
      slot can have. */
  lemma {:induction false} TakesNoMore<W>(host: Promotion.Host<W>, ops: seq<Op>, slot: nat, s: State<W>)
    requires forall op, args :: host.compute(op, args) == Compute(op, args)
    requires OnlyTakes(ops, slot)
    ensures Get(s.slots, slot) <= Get(AfterOps(host, ops, s).slots, slot) + Taken(ops, slot)
    decreases |ops|
  {
    if ops != [] {
      assert ops[0] in ops;
      TakesOnce(host, ops[0], slot, s);
      TakesNoMore(host, ops[1..], slot, AfterOp(host, ops[0], s));
    }
  }

  /** Whether a block goes through all of its operations. */
  ghost predicate AllGoOn<W>(host: Promotion.Host<W>, ops: seq<Op>, s: State<W>)
    decreases |ops|
  {
    ops == [] || (Do(host, ops[0], s).Goes? && AllGoOn(host, ops[1..], AfterOp(host, ops[0], s)))
  }

  /** Less so many, in 64 bits. */
  function Less(x: int, n: nat): U64 { Wrapped(x - n) }

  lemma TakesOneWrapped<W>(host: Promotion.Host<W>, op: Op, slot: nat, s: State<W>)
    requires forall args :: host.compute(op, args) == Compute(op, args)
    requires Promotion.Writes(op, slot) ==> op == TakeOne(slot)
    requires slot < |s.slots| && Do(host, op, s).Goes?
    ensures var after := AfterOp(host, op, s);
            && |after.slots| == |s.slots|
            && after.slots[slot] == Less(s.slots[slot], if op == TakeOne(slot) then 1 else 0)
  {
    if op == TakeOne(slot) {
      assert GetAll(s.slots, Reads(op)) == [Get(s.slots, slot)];
      assert host.compute(op, [Get(s.slots, slot)]) == Wrapped(Get(s.slots, slot) + ONES);
    }
  }

  lemma LessTwice(x: int, n: nat, more: nat)
    ensures Less(Less(x, n), more) == Less(x, n + more)
  {
  }

  /** And one that goes through takes as often as it is to, in 64 bits. */
  lemma {:induction false} TakesAll<W>(host: Promotion.Host<W>, ops: seq<Op>, slot: nat, s: State<W>)
    requires forall op, args :: host.compute(op, args) == Compute(op, args)
    requires OnlyTakes(ops, slot) && slot < |s.slots| && AllGoOn(host, ops, s)
    ensures var after := AfterOps(host, ops, s);
            |after.slots| == |s.slots| && after.slots[slot] == Less(s.slots[slot], Taken(ops, slot))
    decreases |ops|
  {
    if ops != [] {
      assert ops[0] in ops;
      TakesOneWrapped(host, ops[0], slot, s);
      TakesAll(host, ops[1..], slot, AfterOp(host, ops[0], s));
      LessTwice(s.slots[slot], if ops[0] == TakeOne(slot) then 1 else 0, Taken(ops[1..], slot));
    }
  }

  /** What blocks of operations do. Where a branch goes, and what a return gives, is anything that the slots say. */
  function MeaningOf<W>(
      host: Promotion.Host<W>, code: seq<seq<Op>>, slot: nat, taken: (nat, State<W>) -> bool, value: (nat, State<W>) -> nat)
    : Semantics<State<W>>
  {
    Semantics((b: nat, from: Origin, s: State<W>) => if b < |code| then AfterOps(host, code[b], s) else s, taken, value,
              (s: State<W>) => Get(s.slots, slot))
  }

  /** Whether every block takes from the budget at most once, and behind a check that went on: `behind` has the blocks that
      only such a check leads to, with nothing taken since. */
  ghost predicate TakesBehindChecks(blocks: seq<Block>, code: seq<seq<Op>>, slot: nat, behind: set<nat>)
    requires WellFormed(blocks)
  {
    && |code| == |blocks| && 0 !in behind
    && forall b | 0 <= b < |blocks| ::
         && !blocks[b].phi && OnlyTakes(code[b], slot) && Taken(code[b], slot) <= (if b in behind then 1 else 0)
         && forall t <- FastTargets(blocks, b) | t in behind ::
              blocks[b].term.Check? || (b in behind && Taken(code[b], slot) == 0)
  }

  function AccountsOf(blocks: seq<Block>, code: seq<seq<Op>>, slot: nat, behind: set<nat>): Accounts
    requires |code| == |blocks|
  {
    Accounts(seq(|blocks|, b => if b in behind then 1 else 0),
             seq(|blocks|, b requires 0 <= b < |blocks| => Taken(code[b], slot)))
  }

  /** Such blocks keep the contract of the budget slot. */
  lemma BlocksKeepAccounts<W(!new)>(
      host: Promotion.Host<W>, blocks: seq<Block>, code: seq<seq<Op>>, slot: nat, behind: set<nat>,
      taken: (nat, State<W>) -> bool, value: (nat, State<W>) -> nat)
    requires forall op, args :: host.compute(op, args) == Compute(op, args)
    requires WellFormed(blocks) && TakesBehindChecks(blocks, code, slot, behind)
    ensures KeepsAccounts(MeaningOf(host, code, slot, taken, value), blocks, AccountsOf(blocks, code, slot, behind))
  {
    var sem, accounts := MeaningOf(host, code, slot, taken, value), AccountsOf(blocks, code, slot, behind);
    forall b, from, s | 0 <= b < |blocks|
      ensures sem.budget(s) <= sem.budget(sem.effect(b, from, s)) + accounts.spend[b] {
      TakesNoMore(host, code[b], slot, s);
    }
  }

  /** What the proof has of a split of such blocks. */
  ghost function SplitOf<W(!new)>(
      host: Promotion.Host<W>, blocks: seq<Block>, code: seq<seq<Op>>, slot: nat, behind: set<nat>,
      taken: (nat, State<W>) -> bool, value: (nat, State<W>) -> nat, reached: set<nat>, targets: set<nat>, rank: seq<nat>)
    : (split: Split<State<W>>)
    requires |code| == |blocks| && |blocks| > 0
    ensures split.blocks == blocks && split.targets == targets
  {
    Split(MeaningOf(host, code, slot, taken, value), blocks, AccountsOf(blocks, code, slot, behind), reached, targets, rank,
          Assemble(blocks, targets, |CheckSet(blocks)|))
  }

  lemma BlocksAreSplit<W(!new)>(
      host: Promotion.Host<W>, blocks: seq<Block>, code: seq<seq<Op>>, slot: nat, behind: set<nat>,
      taken: (nat, State<W>) -> bool, value: (nat, State<W>) -> nat, reached: set<nat>, targets: set<nat>, rank: seq<nat>)
    requires forall op, args :: host.compute(op, args) == Compute(op, args)
    requires WellFormed(blocks) && TakesBehindChecks(blocks, code, slot, behind)
    requires Certificate(blocks, reached, targets, rank)
    ensures Valid(SplitOf(host, blocks, code, slot, behind, taken, value, reached, targets, rank))
  {
    BlocksKeepAccounts(host, blocks, code, slot, behind, taken, value);
    AssembleIsSplit(blocks, targets, |CheckSet(blocks)|);
  }

  /** What the pass makes of such blocks does what they do, and no more. */
  lemma BlocksSplitTheSame<W(!new)>(
      host: Promotion.Host<W>, blocks: seq<Block>, code: seq<seq<Op>>, slot: nat, behind: set<nat>,
      taken: (nat, State<W>) -> bool, value: (nat, State<W>) -> nat,
      reached: set<nat>, targets: set<nat>, rank: seq<nat>, program: Program, s: State<W>)
    requires forall op, args :: host.compute(op, args) == Compute(op, args)
    requires WellFormed(blocks) && TakesBehindChecks(blocks, code, slot, behind)
    requires Certificate(blocks, reached, targets, rank)
    requires if CheckSet(blocks) != {} && (forall t <- targets :: !blocks[t].phi)
             then IsSplit(blocks, targets, program) else program == Original(blocks)
    ensures var sem := MeaningOf(host, code, slot, taken, value);
            && Closed(Original(blocks)) && Closed(program)
            && (forall fuel: nat :: DoesAsMuch(sem, Original(blocks), program, s, fuel))
            && (forall steps: nat :: DoesNoMore(sem, Original(blocks), program, s, steps))
  {
    BlocksKeepAccounts(host, blocks, code, slot, behind, taken, value);
    EitherWayTheSame(MeaningOf(host, code, slot, taken, value), blocks, AccountsOf(blocks, code, slot, behind),
                     reached, targets, rank, program, s);
  }

  // ---------- A loop ----------

  /** A check, a block behind it that goes back to it, and a return that it leaves to. */
  function Loop(): (blocks: seq<Block>)
    ensures WellFormed(blocks)
  {
    [Block(false, Check(1, 2)), Block(false, Term.Jump(0)), Block(false, Return)]
  }

  function LoopCode(): seq<seq<Op>> { [[], [TakeOne(0)], []] }

  lemma LoopTakes()
    ensures TakesBehindChecks(Loop(), LoopCode(), 0, {1})
  {
    assert FastTargets(Loop(), 0) == [1] && FastTargets(Loop(), 1) == [0] && FastTargets(Loop(), 2) == [];
    assert LoopCode()[1][1..] == [] && Taken(LoopCode()[1], 0) == 1;
  }

  /** The check is the target of its jump back. */
  lemma LoopHasTarget()
    ensures Certificate(Loop(), {0, 1}, {0}, [1, 0, 0]) && AreTargets(Loop(), {0}) && !Loop()[0].phi
  {
    var blocks, reached, rank := Loop(), {0, 1}, [1, 0, 0];
    assert FastTargets(blocks, 0) == [1] && FastTargets(blocks, 1) == [0];
    assert HasParent(blocks, reached, rank, 1) by {
      assert 0 in reached && 1 in FastTargets(blocks, 0);
    }
    assert IsBack(blocks, reached, rank, 0) by {
      assert 1 in reached && 0 in FastTargets(blocks, 1);
    }
    assert Certificate(blocks, reached, {0}, rank) && forall t <- {0} :: IsBack(blocks, reached, rank, t);
  }

  /** So there are splits: the loop has one. */
  lemma LoopIsSplit<W(!new)>(host: Promotion.Host<W>, taken: (nat, State<W>) -> bool, value: (nat, State<W>) -> nat)
    requires forall op, args :: host.compute(op, args) == Compute(op, args)
    ensures exists split: Split<State<W>> :: Valid(split) && split.blocks == Loop() && split.targets == {0}
  {
    LoopTakes();
    LoopHasTarget();
    var split := SplitOf(host, Loop(), LoopCode(), 0, {1}, taken, value, {0, 1}, {0}, [1, 0, 0]);
    BlocksAreSplit(host, Loop(), LoopCode(), 0, {1}, taken, value, {0, 1}, {0}, [1, 0, 0]);
    assert Valid(split);
  }
}
