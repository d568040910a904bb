/** What compiled code leaves of its slots when it is optimized (native/bap_jit.cpp:1192-1296): it works on copies of
    them, and writes back those that it wrote and that are read afterwards, at the sites in its plan and at its
    end. It does what the code does that works on the slots themselves. */
module Promotion {
  import opened Basics
  import opened Operations

  /** What compiled code runs in: what its operations compute, its accesses of memory and its code sites, which may call
      Lean code or not. The Lean code of a site may look at the slots that it was left. */
  datatype Host<!W> = Host(
    compute: (Op, seq<U64>) -> U64,
    load: (W, U64, nat, bool) -> (W, U64),
    store: (W, U64, nat, bool, U64) -> W,
    calls: (W, U64) -> bool,
    pass: (W, U64) -> W,
    site: (W, U64, Option<seq<U64>>) -> (W, bool))

  /** Where a label is. */
  function LabelAt(ops: seq<Op>, id: nat): (at: nat)
    ensures at <= |ops| && (at < |ops| ==> ops[at] == Label(id))
  {
    LabelFrom(ops, id, 0)
  }

  function LabelFrom(ops: seq<Op>, id: nat, from: nat): (at: nat)
    requires from <= |ops|
    ensures from <= at <= |ops| && (at < |ops| ==> ops[at] == Label(id))
    ensures at == |ops| ==> forall i | from <= i < |ops| :: ops[i] != Label(id)
    decreases |ops| - from
  {
    if from == |ops| || ops[from] == Label(id) then from else LabelFrom(ops, id, from + 1)
  }

  datatype Config<W> = Config(at: nat, slots: seq<U64>, world: W)

  datatype Outcome<W> = Goes(config: Config<W>) | Returns(value: U64, slots: seq<U64>, world: W) | Stuck

  /** One operation, on slots: those of the state, or copies of them. `left` is what a code site leaves to be looked at. */
  function Step<W>(host: Host<W>, ops: seq<Op>, c: Config<W>, left: Option<seq<U64>>): Outcome<W> {
    if c.at >= |ops| then Stuck
    else
      var op, on := ops[c.at], c.(at := c.at + 1);
      if Computes(op) then
        Goes(on.(slots := With(c.slots, op.dst, host.compute(op, GetAll(c.slots, Reads(op))))))
      else match op
        case Jump(target) => Returns(target, c.slots, c.world)
        case JumpSlot(src) => Returns(Get(c.slots, src), c.slots, c.world)
        case Label(_) => Goes(on)
        case Goto(id) => Goes(c.(at := LabelAt(ops, id)))
        case Branch(condition, yes, no) => Goes(c.(at := LabelAt(ops, if Get(c.slots, condition) != 0 then yes else no)))
        case MemLoad(dst, address, size, big) =>
          var (world, value) := host.load(c.world, Get(c.slots, address), size, big);
          Goes(on.(slots := With(c.slots, dst, value), world := world))
        case MemStore(address, stored, size, big) =>
          Goes(on.(world := host.store(c.world, Get(c.slots, address), size, big, Get(c.slots, stored))))
        case Code(effect, pc) =>
          if !host.calls(c.world, pc) then Goes(on.(world := host.pass(c.world, pc)))
          else
            var (world, stops) := host.site(c.world, pc, left);
            if stops then Returns(pc, With(c.slots, effect, 3), world) else Goes(on.(world := world))
        case _ => Stuck
  }

  // ---------- The plan of what is copied, kept and left ----------

  /** Where a slot is between runs: in the state, or in a register of a chain. */
  datatype Home = InState(slot: nat) | InRegister(number: nat)

  /** The slots of the state, and the registers of the chain, if there is one. */
  datatype Places = Places(state: seq<U64>, registers: seq<U64>) {
    function At(home: Home): U64 {
      match home
      case InState(slot) => Get(state, slot)
      case InRegister(number) => Get(registers, number)
    }

    function Put(home: Home, value: U64): (p: Places)
      ensures |p.state| == |state| && |p.registers| == |registers|
    {
      match home
      case InState(slot) => this.(state := With(state, slot, value))
      case InRegister(number) => this.(registers := With(registers, number, value))
    }

    predicate Has(home: Home) {
      match home
      case InState(slot) => slot < |state|
      case InRegister(number) => number < |registers|
    }
  }

  /** Which slots the code writes, and which are read after it; where each is between runs; the sites that leave them; and
      whether there is a chain. */
  datatype Plan = Plan(written: seq<bool>, readAfter: seq<bool>, homes: seq<Home>, flushes: seq<U64>, chained: bool) {
    predicate Shaped() { |written| == |readAfter| == |homes| }

    predicate Leaves(s: nat)
      requires Shaped() && s < |homes|
    {
      written[s] && readAfter[s]
    }
  }

  predicate Writes(op: Op, s: nat) {
    (Computes(op) && op.dst == s) || (op.MemLoad? && op.dst == s) || (op.Code? && op.effect == s)
  }

  /** Whether the plan knows of all that the operations write. */
  ghost predicate Knows(plan: Plan, ops: seq<Op>) {
    && plan.Shaped()
    && forall i, s {:trigger Writes(ops[i], s)} | 0 <= i < |ops| && 0 <= s < |plan.homes| && Writes(ops[i], s) ::
         plan.written[s]
  }

  /** The slots that are left, from one on, each in its home, in order. */
  function WriteBack(plan: Plan, places: Places, slots: seq<U64>, from: nat): (p: Places)
    requires plan.Shaped() && from <= |plan.homes| == |slots|
    ensures |p.state| == |places.state| && |p.registers| == |places.registers|
    decreases |slots| - from
  {
    if from == |slots| then places
    else WriteBack(plan, if plan.Leaves(from) then places.Put(plan.homes[from], slots[from]) else places, slots, from + 1)
  }

  /** The copies at the start. */
  function Copies(plan: Plan, places: Places): (slots: seq<U64>)
    requires plan.Shaped()
    ensures |slots| == |plan.homes|
  {
    seq(|plan.homes|, s requires 0 <= s < |plan.homes| => places.At(plan.homes[s]))
  }

  /** Whether code is at a site that leaves its slots before it calls Lean code. */
  predicate Flushes<W>(host: Host<W>, ops: seq<Op>, plan: Plan, c: Config<W>) {
    c.at < |ops| && ops[c.at].Code? && ops[c.at].pc in plan.flushes && host.calls(c.world, ops[c.at].pc)
  }

  /** What the Lean code of a site can look at: the slots of the state that are read after a run, and nothing of those of
      a chain. */
  function Look(plan: Plan, state: seq<U64>): Option<seq<U64>>
    requires plan.Shaped()
  {
    if plan.chained then None
    else Some(seq(|plan.homes|, s requires 0 <= s < |plan.homes| => if plan.readAfter[s] then Get(state, s) else 0))
  }

  // ---------- The two programs ----------

  /** A step of the code that works on the slots. Its sites leave them always, and are looked at where they are to be. */
  function PlainStep<W>(host: Host<W>, ops: seq<Op>, plan: Plan, c: Config<W>): Outcome<W>
    requires plan.Shaped()
  {
    Step(host, ops, c, if Flushes(host, ops, plan, c) then Look(plan, c.slots) else None)
  }

  function PlainRun<W>(host: Host<W>, ops: seq<Op>, plan: Plan, c: Config<W>, fuel: nat): Outcome<W>
    requires plan.Shaped()
    decreases fuel
  {
    if fuel == 0 then Goes(c)
    else
      var next := PlainStep(host, ops, plan, c);
      if next.Goes? then PlainRun(host, ops, plan, next.config, fuel - 1) else next
  }

  /** The code that works on copies, with the places that it leaves them in. */
  datatype Promoted<W> = Promoted(copies: Config<W>, places: Places)

  datatype Result<W> = Continues(promoted: Promoted<W>) | Ends(value: U64, places: Places, world: W) | Fails

  function PromotedStep<W>(host: Host<W>, ops: seq<Op>, plan: Plan, p: Promoted<W>): Result<W>
    requires plan.Shaped() && |p.copies.slots| == |plan.homes|
  {
    var flushes := Flushes(host, ops, plan, p.copies);
    var places := if flushes then WriteBack(plan, p.places, p.copies.slots, 0) else p.places;
    match Step(host, ops, p.copies, if flushes then Look(plan, places.state) else None)
    case Goes(config) => Continues(Promoted(config, places))
    case Returns(value, slots, world) =>
      if |slots| == |plan.homes| then Ends(value, WriteBack(plan, places, slots, 0), world) else Fails
    case Stuck => Fails
  }

  function PromotedRun<W>(host: Host<W>, ops: seq<Op>, plan: Plan, p: Promoted<W>, fuel: nat): Result<W>
    requires plan.Shaped() && |p.copies.slots| == |plan.homes|
    decreases fuel
  {
    if fuel == 0 then Continues(p)
    else
      var next := PromotedStep(host, ops, plan, p);
      if next.Continues? && |next.promoted.copies.slots| == |plan.homes|
      then PromotedRun(host, ops, plan, next.promoted, fuel - 1) else next
  }

  // ---------- What is where after slots were left ----------

  /** The last slot that is left in a home, from one on. */
  function LastFor(plan: Plan, home: Home, from: nat): (last: Option<nat>)
    requires plan.Shaped() && from <= |plan.homes|
    ensures last.Some? ==> from <= last.value < |plan.homes| && plan.Leaves(last.value) && plan.homes[last.value] == home
    ensures forall s | from <= s < |plan.homes| && plan.Leaves(s) && plan.homes[s] == home ::
              last.Some? && s <= last.value
    decreases |plan.homes| - from
  {
    if from == |plan.homes| then None
    else
      var later := LastFor(plan, home, from + 1);
      if later.Some? then later else if plan.Leaves(from) && plan.homes[from] == home then Some(from) else None
  }

  /** A home has what was left there last, and otherwise what it had. */
  lemma {:induction false} LeftAt(plan: Plan, places: Places, slots: seq<U64>, from: nat, home: Home)
    requires plan.Shaped() && from <= |plan.homes| == |slots| && places.Has(home)
    ensures WriteBack(plan, places, slots, from).At(home)
            == match LastFor(plan, home, from) case None => places.At(home) case Some(s) => slots[s]
    decreases |slots| - from
  {
    if from < |slots| {
      var next := if plan.Leaves(from) then places.Put(plan.homes[from], slots[from]) else places;
      LeftAt(plan, next, slots, from + 1, home);
    }
  }

  lemma SamePlaces(p: Places, q: Places)
    requires |p.state| == |q.state| && |p.registers| == |q.registers|
    requires forall home: Home | p.Has(home) :: p.At(home) == q.At(home)
    ensures p == q
  {
    forall s | 0 <= s < |p.state| ensures p.state[s] == q.state[s] {
      assert p.Has(InState(s)) && p.At(InState(s)) == q.At(InState(s));
    }
    forall r | 0 <= r < |p.registers| ensures p.registers[r] == q.registers[r] {
      assert p.Has(InRegister(r)) && p.At(InRegister(r)) == q.At(InRegister(r));
    }
  }

  /** Whether places are the same but for the homes of slots that are left. */
  ghost predicate SameElsewhere(plan: Plan, p: Places, q: Places)
    requires plan.Shaped()
  {
    && |p.state| == |q.state| && |p.registers| == |q.registers|
    && forall home: Home {:trigger p.At(home)} {:trigger q.At(home)} | p.Has(home) && LastFor(plan, home, 0).None? ::
        p.At(home) == q.At(home)
  }

  /** What was left before is no more after slots are left again. */
  lemma LeftAgain(plan: Plan, p: Places, q: Places, slots: seq<U64>)
    requires plan.Shaped() && |slots| == |plan.homes| && SameElsewhere(plan, p, q)
    ensures WriteBack(plan, q, slots, 0) == WriteBack(plan, p, slots, 0)
    ensures SameElsewhere(plan, p, WriteBack(plan, q, slots, 0))
  {
    var left, again := WriteBack(plan, p, slots, 0), WriteBack(plan, q, slots, 0);
    forall home: Home | p.Has(home)
      ensures left.At(home) == again.At(home) && (LastFor(plan, home, 0).None? ==> p.At(home) == again.At(home)) {
      LeftAt(plan, p, slots, 0, home);
      LeftAt(plan, q, slots, 0, home);
    }
    SamePlaces(left, again);
  }

  // ---------- One program does what the other does ----------

  /** Without a chain, every slot is at its place in the state. */
  ghost predicate Housed(plan: Plan, places: Places) {
    && plan.Shaped() && |places.state| >= |plan.homes|
    && (!plan.chained ==> forall s | 0 <= s < |plan.homes| :: plan.homes[s] == InState(s))
  }

  /** Whether slots that are never written are as they were. */
  ghost predicate Untouched(plan: Plan, slots: seq<U64>, now: seq<U64>)
    requires plan.Shaped()
  {
    |slots| == |now| == |plan.homes| && forall s | 0 <= s < |slots| && !plan.written[s] :: now[s] == slots[s]
  }

  lemma StepTouches<W>(host: Host<W>, ops: seq<Op>, plan: Plan, slots: seq<U64>, c: Config<W>, left: Option<seq<U64>>)
    requires Knows(plan, ops) && Untouched(plan, slots, c.slots)
    ensures Step(host, ops, c, left).Goes? ==> Untouched(plan, slots, Step(host, ops, c, left).config.slots)
    ensures Step(host, ops, c, left).Returns? ==> Untouched(plan, slots, Step(host, ops, c, left).slots)
  {
    if c.at < |ops| {
      var op := ops[c.at];
      forall s | 0 <= s < |slots| && Writes(op, s) ensures plan.written[s] {
        assert Writes(ops[c.at], s);
      }
    }
  }

  /** What a site leaves is what the slots have now, of those that are read after a run. */
  lemma LooksTheSame(plan: Plan, start: Places, places: Places, slots: seq<U64>)
    requires Housed(plan, start) && SameElsewhere(plan, start, places) && Untouched(plan, Copies(plan, start), slots)
    ensures Look(plan, WriteBack(plan, places, slots, 0).state) == Look(plan, slots)
  {
    var left := WriteBack(plan, places, slots, 0);
    if !plan.chained {
      forall s | 0 <= s < |plan.homes| && plan.readAfter[s] ensures Get(left.state, s) == slots[s] {
        var home := InState(s);
        assert plan.homes[s] == home && places.Has(home);
        LeftAt(plan, places, slots, 0, home);
        if plan.Leaves(s) {
          assert LastFor(plan, home, 0) == Some(s);
        } else {
          assert start.At(home) == places.At(home) && Copies(plan, start)[s] == start.At(home);
        }
        assert left.At(home) == slots[s];
      }
      assert Look(plan, left.state).value == Look(plan, slots).value;
    }
  }

  /** Whether the code on copies has got to the same as the code on the slots: where that goes on, with copies of the same;
      and where it returns, with the same value, in the same world, and with just the slots that it leaves as they are. */
  ghost predicate Alike<W>(plan: Plan, start: Places, plain: Outcome<W>, promoted: Result<W>)
    requires plan.Shaped()
  {
    match plain
    case Goes(config) =>
      promoted.Continues? && promoted.promoted.copies == config
      && SameElsewhere(plan, start, promoted.promoted.places) && Untouched(plan, Copies(plan, start), config.slots)
    case Returns(value, slots, world) =>
      Untouched(plan, Copies(plan, start), slots) && promoted == Ends(value, WriteBack(plan, start, slots, 0), world)
    case Stuck => promoted == Fails
  }

  /** A step of the code on copies is one of the code on the slots. */
  lemma StepsAlike<W>(host: Host<W>, ops: seq<Op>, plan: Plan, start: Places, p: Promoted<W>)
    requires Knows(plan, ops) && Housed(plan, start)
    requires SameElsewhere(plan, start, p.places) && Untouched(plan, Copies(plan, start), p.copies.slots)
    ensures Alike(plan, start, PlainStep(host, ops, plan, p.copies), PromotedStep(host, ops, plan, p))
  {
    var flushes := Flushes(host, ops, plan, p.copies);
    var places := if flushes then WriteBack(plan, p.places, p.copies.slots, 0) else p.places;
    var left := if flushes then Look(plan, places.state) else None;
    LeftAgain(plan, start, p.places, p.copies.slots);
    LooksTheSame(plan, start, p.places, p.copies.slots);
    StepTouches(host, ops, plan, Copies(plan, start), p.copies, left);
    var outcome := Step(host, ops, p.copies, left);
    assert outcome == PlainStep(host, ops, plan, p.copies);
    if outcome.Returns? {
      LeftAgain(plan, start, places, outcome.slots);
    }
  }

  /** For every program that the plan knows of and any number of steps: the code on copies goes on while the code on the
      slots does, with copies of the same, and when that returns, it returns the same, in the same world, and leaves
      just the slots that it is to leave, as they are then. */
  lemma {:induction false} RunsAlike<W>(host: Host<W>, ops: seq<Op>, plan: Plan, start: Places, p: Promoted<W>, fuel: nat)
    requires Knows(plan, ops) && Housed(plan, start)
    requires SameElsewhere(plan, start, p.places) && Untouched(plan, Copies(plan, start), p.copies.slots)
    ensures Alike(plan, start, PlainRun(host, ops, plan, p.copies, fuel), PromotedRun(host, ops, plan, p, fuel))
    decreases fuel
  {
    if fuel > 0 {
      StepsAlike(host, ops, plan, start, p);
      var next := PlainStep(host, ops, plan, p.copies);
      if next.Goes? {
        RunsAlike(host, ops, plan, start, PromotedStep(host, ops, plan, p).promoted, fuel - 1);
      }
    }
  }

  /** What is promised of optimized code: every slot that is read after a run is where it is between runs, as the code on
      the slots would leave it, if no slot that is left has the same home; and a home of no slot that is left is as it was. */
  lemma KeptSlotsAreLeft<W>(host: Host<W>, ops: seq<Op>, plan: Plan, start: Places, at: nat, world: W, fuel: nat, s: nat)
    requires Knows(plan, ops) && Housed(plan, start) && s < |plan.homes| && start.Has(plan.homes[s])
    requires PlainRun(host, ops, plan, Config(at, Copies(plan, start), world), fuel).Returns?
    ensures var plain := PlainRun(host, ops, plan, Config(at, Copies(plan, start), world), fuel);
            var promoted := PromotedRun(host, ops, plan, Promoted(Config(at, Copies(plan, start), world), start), fuel);
            && promoted.Ends? && promoted.value == plain.value && promoted.world == plain.world
            && |plain.slots| == |plan.homes|
            && (plan.readAfter[s] && AloneAt(plan, s) ==> promoted.places.At(plan.homes[s]) == plain.slots[s])
            && (LastFor(plan, plan.homes[s], 0).None? ==> promoted.places.At(plan.homes[s]) == start.At(plan.homes[s]))
  {
    var c := Config(at, Copies(plan, start), world);
    var plain := PlainRun(host, ops, plan, c, fuel);
    RunsAlike(host, ops, plan, start, Promoted(c, start), fuel);
    LeftAt(plan, start, plain.slots, 0, plan.homes[s]);
    if plan.readAfter[s] && AloneAt(plan, s) {
      AloneIsLeft(plan, start, plain.slots, s);
    }
  }

  /** Whether no other slot that is left has the home of a slot. */
  ghost predicate AloneAt(plan: Plan, s: nat)
    requires plan.Shaped() && s < |plan.homes|
  {
    forall t | 0 <= t < |plan.homes| && t != s && plan.Leaves(t) :: plan.homes[t] != plan.homes[s]
  }

  /** Of slots that are left in one home, it has the last. */
  lemma LastIsLeft(plan: Plan, start: Places, slots: seq<U64>, s: nat)
    requires plan.Shaped() && |slots| == |plan.homes| && s < |slots| && start.Has(plan.homes[s]) && plan.Leaves(s)
    ensures var last := LastFor(plan, plan.homes[s], 0);
            last.Some? && WriteBack(plan, start, slots, 0).At(plan.homes[s]) == slots[last.value]
  {
    LeftAt(plan, start, slots, 0, plan.homes[s]);
  }

  /** Whether every slot that is read after a run has a home where no other slot is left. */
  ghost predicate HomesApart(plan: Plan)
    requires plan.Shaped()
  {
    forall s | 0 <= s < |plan.homes| && plan.readAfter[s] :: AloneAt(plan, s)
  }

  /** Whether every slot that is read after a run is at its home as it is. */
  ghost predicate AllAreLeft(plan: Plan, start: Places, slots: seq<U64>)
    requires plan.Shaped() && |slots| == |plan.homes|
  {
    forall s | 0 <= s < |slots| && plan.readAfter[s] :: WriteBack(plan, start, slots, 0).At(plan.homes[s]) == slots[s]
  }

  /** Every slot that is read after a run is where it is between runs as the code on the slots leaves it, whatever that
      leaves in those that it writes, just if each has a home where no other slot is left. */
  lemma LeftJustIfApart(plan: Plan, start: Places)
    requires plan.Shaped() && forall s | 0 <= s < |plan.homes| :: start.Has(plan.homes[s])
    ensures HomesApart(plan) <==>
            forall slots: seq<U64> | Untouched(plan, Copies(plan, start), slots) :: AllAreLeft(plan, start, slots)
  {
    if HomesApart(plan) {
      forall slots: seq<U64>, s | Untouched(plan, Copies(plan, start), slots) && 0 <= s < |slots| && plan.readAfter[s]
        ensures WriteBack(plan, start, slots, 0).At(plan.homes[s]) == slots[s] {
        AloneIsLeft(plan, start, slots, s);
      }
    } else {
      var s :| 0 <= s < |plan.homes| && plan.readAfter[s] && !AloneAt(plan, s);
      var slots := Differing(plan, start, s);
      SharedIsLost(plan, start, s, slots);
      assert Untouched(plan, Copies(plan, start), slots) && !AllAreLeft(plan, start, slots);
    }
  }

  lemma AloneIsLeft(plan: Plan, start: Places, slots: seq<U64>, s: nat)
    requires plan.Shaped() && s < |plan.homes| && start.Has(plan.homes[s]) && Untouched(plan, Copies(plan, start), slots)
    requires plan.readAfter[s] && AloneAt(plan, s)
    ensures WriteBack(plan, start, slots, 0).At(plan.homes[s]) == slots[s]
  {
    LeftAt(plan, start, slots, 0, plan.homes[s]);
    if plan.written[s] {
      assert plan.Leaves(s);
    }
  }

  /** What slots may hold after a run, where the others that are written differ from one. */
  function Differing(plan: Plan, start: Places, s: nat): (slots: seq<U64>)
    requires plan.Shaped() && s < |plan.homes|
    ensures |slots| == |plan.homes|
  {
    var copies := Copies(plan, start);
    var other: U64 := if copies[s] == 0 then 1 else 0;
    seq(|copies|, k requires 0 <= k < |copies| => if plan.written[k] && k != s then other else copies[k])
  }

  lemma SharedIsLost(plan: Plan, start: Places, s: nat, slots: seq<U64>)
    requires plan.Shaped() && s < |plan.homes| && forall t | 0 <= t < |plan.homes| :: start.Has(plan.homes[t])
    requires plan.readAfter[s] && !AloneAt(plan, s) && slots == Differing(plan, start, s)
    ensures !AllAreLeft(plan, start, slots)
  {
    var t :| 0 <= t < |plan.homes| && t != s && plan.Leaves(t) && plan.homes[t] == plan.homes[s];
    LastIsLeft(plan, start, slots, t);
    assert slots[t] != slots[s];
  }

  /** Two variables in one register, set to 1 and 2: on the slots they are so at the end, and the register has just the 2. */
  lemma SharedHomesLose<W>(world: W)
    ensures var host := OnlySets(world);
            var ops := [Set(0, 1), Set(1, 2), Jump(0)];
            var plan := Plan([true, true], [true, true], [InRegister(0), InRegister(0)], [], true);
            var start := Places([0, 0], [0]);
            var c := Config(0, [0, 0], world);
            && Accepted(ops) && Knows(plan, ops) && Copies(plan, start) == c.slots
            && PlainRun(host, ops, plan, c, 3) == Returns(0, [1, 2], world)
            && PromotedRun(host, ops, plan, Promoted(c, start), 3) == Ends(0, Places([0, 0], [2]), world)
  {
    var host, c := OnlySets(world), Config(0, [0, 0], world);
    var ops := [Set(0, 1), Set(1, 2), Jump(0)];
    var plan := Plan([true, true], [true, true], [InRegister(0), InRegister(0)], [], true);
    var start := Places([0, 0], [0]);
    assert HasLabels(ops, {}) && forall op <- ops :: IsFine(op, {});
    assert forall i | 0 <= i < |ops| :: EndsRight(ops, i);
    TwoSets(ops, plan, c);
    TwoInOne(plan, start, [1, 2]);
    RunsAlike(host, ops, plan, start, Promoted(c, start), 3);
  }

  lemma TwoSets<W>(ops: seq<Op>, plan: Plan, c: Config<W>)
    requires ops == [Set(0, 1), Set(1, 2), Jump(0)] && plan.Shaped() && c == Config(0, [0, 0], c.world)
    ensures PlainRun(OnlySets(c.world), ops, plan, c, 3) == Returns(0, [1, 2], c.world)
  {
    var one, two := c.(at := 1, slots := [1, 0]), c.(at := 2, slots := [1, 2]);
    assert PlainStep(OnlySets(c.world), ops, plan, c) == Goes(one);
    assert PlainStep(OnlySets(c.world), ops, plan, one) == Goes(two);
    assert PlainRun(OnlySets(c.world), ops, plan, one, 2) == Returns(0, [1, 2], c.world);
  }

  lemma TwoInOne(plan: Plan, start: Places, slots: seq<U64>)
    requires plan == Plan([true, true], [true, true], [InRegister(0), InRegister(0)], [], true)
    requires start == Places([0, 0], [0]) && slots == [1, 2]
    ensures WriteBack(plan, start, slots, 0) == Places([0, 0], [2])
  {
    var next, last := Places([0, 0], [1]), Places([0, 0], [2]);
    assert start.Put(InRegister(0), 1) == next && next.Put(InRegister(0), 2) == last;
    assert WriteBack(plan, last, slots, 2) == last;
    assert WriteBack(plan, next, slots, 1) == WriteBack(plan, last, slots, 2);
  }

  /** A variable that is kept and not written, in the register of one that is: it was given as 0, and the register has the
      other's 1. */
  lemma UnwrittenLoses<W>(world: W)
    ensures var host := OnlySets(world);
            var ops := [Set(0, 1), Jump(0)];
            var plan := Plan([true, false], [true, true], [InRegister(0), InRegister(0)], [], true);
            var start := Places([0, 0], [0]);
            var c := Config(0, [0, 0], world);
            && Accepted(ops) && Knows(plan, ops) && Copies(plan, start) == c.slots
            && PlainRun(host, ops, plan, c, 2) == Returns(0, [1, 0], world)
            && PromotedRun(host, ops, plan, Promoted(c, start), 2) == Ends(0, Places([0, 0], [1]), world)
  {
    var host, c := OnlySets(world), Config(0, [0, 0], world);
    var ops := [Set(0, 1), Jump(0)];
    var plan := Plan([true, false], [true, true], [InRegister(0), InRegister(0)], [], true);
    var start := Places([0, 0], [0]);
    assert HasLabels(ops, {}) && forall op <- ops :: IsFine(op, {});
    assert forall i | 0 <= i < |ops| :: EndsRight(ops, i);
    OneSet(ops, plan, c);
    OneInOne(plan, start, [1, 0]);
    RunsAlike(host, ops, plan, start, Promoted(c, start), 2);
  }

  lemma OneSet<W>(ops: seq<Op>, plan: Plan, c: Config<W>)
    requires ops == [Set(0, 1), Jump(0)] && plan.Shaped() && c == Config(0, [0, 0], c.world)
    ensures PlainRun(OnlySets(c.world), ops, plan, c, 2) == Returns(0, [1, 0], c.world)
  {
    assert PlainStep(OnlySets(c.world), ops, plan, c) == Goes(c.(at := 1, slots := [1, 0]));
  }

  lemma OneInOne(plan: Plan, start: Places, slots: seq<U64>)
    requires plan == Plan([true, false], [true, true], [InRegister(0), InRegister(0)], [], true)
    requires start == Places([0, 0], [0]) && slots == [1, 0]
    ensures WriteBack(plan, start, slots, 0) == Places([0, 0], [1])
  {
    var next := Places([0, 0], [1]);
    assert start.Put(InRegister(0), 1) == next;
    assert WriteBack(plan, next, slots, 1) == WriteBack(plan, next, slots, 2) == next;
  }

  /** A host where all that is done is to set slots. */
  function OnlySets<W>(world: W): Host<W> {
    Host((op: Op, _) => if op.Set? then op.value else 0, (w, _, _, _) => (w, 0), (w, _, _, _, _) => w, (_, _) => false,
         (w, _) => w, (w, _, _) => (w, false))
  }

  // ---------- The plan that is made ----------

  /** Where a slot is: at the register of the last pair for it, where there is a chain, and otherwise in the state. */
  function HomeOf(s: nat, variables: seq<U64>, chained: bool): Home
    decreases |variables|
  {
    var n := |variables| / 2;
    if n == 0 || !chained then InState(s)
    else if variables[2 * n - 2] == s then InRegister(variables[2 * n - 1])
    else HomeOf(s, variables[..2 * n - 2], chained)
  }

  /** The plan for operations: the slots that any of them writes, those that are kept, all if none are said to be, and the
      registers of the pairs of a slot and a number in `variables`. */
  method MakePlan(ops: seq<Op>, count: nat, kept: Option<seq<U64>>, variables: seq<U64>, flushes: seq<U64>, chained: bool)
    returns (plan: Plan)
    ensures Knows(plan, ops) && |plan.homes| == count && plan.flushes == flushes && plan.chained == chained
    ensures forall s | 0 <= s < count :: plan.written[s] <==> exists i :: 0 <= i < |ops| && Writes(ops[i], s)
    ensures forall s | 0 <= s < count :: plan.readAfter[s] <==> kept.None? || s in kept.value
    ensures forall s | 0 <= s < count :: plan.homes[s] == HomeOf(s, variables, chained)
    ensures !chained ==> forall s | 0 <= s < count :: plan.homes[s] == InState(s)
  {
    var written := MarkWritten(ops, count);
    var readAfter := MarkRead(count, kept);
    var homes := FindHomes(count, variables, chained);
    plan := Plan(written, readAfter, homes, flushes, chained);
  }

  method MarkWritten(ops: seq<Op>, count: nat) returns (written: seq<bool>)
    ensures |written| == count
    ensures forall s | 0 <= s < count :: written[s] <==> exists i :: 0 <= i < |ops| && Writes(ops[i], s)
  {
    written := seq(count, _ => false);
    for i := 0 to |ops|
      invariant |written| == count
      invariant forall s | 0 <= s < count :: written[s] <==> exists j :: 0 <= j < i && Writes(ops[j], s)
    {
      var op := ops[i];
      if Computes(op) || op.MemLoad? || op.Code? {
        var dst := if op.Code? then op.effect else op.dst;
        if dst < count {
          written := written[dst := true];
        }
      }
    }
  }

  method MarkRead(count: nat, kept: Option<seq<U64>>) returns (readAfter: seq<bool>)
    ensures |readAfter| == count
    ensures forall s | 0 <= s < count :: readAfter[s] <==> kept.None? || s in kept.value
  {
    readAfter := seq(count, _ => kept.None?);
    if kept.Some? {
      for i := 0 to |kept.value|
        invariant |readAfter| == count
        invariant forall s | 0 <= s < count :: readAfter[s] <==> s in kept.value[..i]
      {
        assert kept.value[..i + 1] == kept.value[..i] + [kept.value[i]];
        if kept.value[i] < count {
          readAfter := readAfter[kept.value[i] := true];
        }
      }
      assert kept.value[..|kept.value|] == kept.value;
    }
  }

  method FindHomes(count: nat, variables: seq<U64>, chained: bool) returns (homes: seq<Home>)
    ensures |homes| == count && forall s | 0 <= s < count :: homes[s] == HomeOf(s, variables, chained)
    ensures !chained ==> forall s | 0 <= s < count :: homes[s] == InState(s)
  {
    homes := seq(count, (s: nat) => InState(s));
    for n := 0 to |variables| / 2
      invariant |homes| == count && forall s | 0 <= s < count :: homes[s] == HomeOf(s, variables[..2 * n], chained)
    {
      assert variables[..2 * n + 2][..2 * n] == variables[..2 * n];
      var slot, number := variables[2 * n], variables[2 * n + 1];
      if slot < count {
        homes := homes[slot := if chained then InRegister(number) else homes[slot]];
      }
    }
    WholePairs(variables, chained, count);
  }

  /** A number without a slot at the end says nothing. */
  lemma WholePairs(variables: seq<U64>, chained: bool, count: nat)
    ensures forall s | 0 <= s < count ::
            HomeOf(s, variables[..|variables| / 2 * 2], chained) == HomeOf(s, variables, chained)
  {
    var n := |variables| / 2;
    var pairs := variables[..n * 2];
    forall s | 0 <= s < count ensures HomeOf(s, pairs, chained) == HomeOf(s, variables, chained) {
      if n > 0 {
        assert pairs[..2 * n - 2] == variables[..2 * n - 2];
      }
    }
  }

  // ---------- What is compiled at all ----------

  const MOST_SLOT: nat := 0xFFF_FFFF

  predicate Terminates(op: Op) { op.Jump? || op.JumpSlot? || op.Goto? || op.Branch? }

  /** Whether what an operation says itself is in range, and its labels are there. */
  predicate IsFine(op: Op, labels: set<nat>) {
    match op
    case Jump(_) => true
    case JumpSlot(src) => src <= MOST_SLOT
    case Label(id) => id <= MOST_SLOT
    case Goto(id) => id <= MOST_SLOT && id in labels
    case Branch(condition, yes, no) => condition <= MOST_SLOT && yes <= MOST_SLOT && no <= MOST_SLOT
        && yes in labels && no in labels
    case MemLoad(dst, address, size, _) => dst <= MOST_SLOT && address <= MOST_SLOT && 1 <= size <= 8
    case MemStore(address, stored, size, _) => address <= MOST_SLOT && stored <= MOST_SLOT && 1 <= size <= 8
    case Code(effect, _) => effect <= MOST_SLOT
    case _ =>
      && op.dst <= MOST_SLOT && (forall s <- Reads(op) :: s <= MOST_SLOT)
      && (op.SignExtend? || op.AShr? ==> 1 <= op.width <= 64)
  }

  ghost predicate HasLabels(ops: seq<Op>, labels: set<nat>) {
    && (forall id <- labels :: Label(id) in ops)
    && (forall op <- ops | op.Label? :: op.id in labels)
  }

  /** What is compiled: operations that are fine, no label twice, and blocks that end with the one operation that goes
      elsewhere. */
  ghost predicate Accepted(ops: seq<Op>) {
    && |ops| > 0 && !ops[0].Label?
    && (forall i, j | 0 <= i < j < |ops| && ops[i].Label? && ops[j].Label? :: ops[i] != ops[j])
    && (exists labels :: HasLabels(ops, labels) && forall op <- ops :: IsFine(op, labels))
    && (forall i | 0 <= i < |ops| :: EndsRight(ops, i))
  }

  /** Whether an operation goes elsewhere just if a label comes after it, or nothing. */
  predicate EndsRight(ops: seq<Op>, i: nat)
    requires i < |ops|
  {
    Terminates(ops[i]) <==> i + 1 == |ops| || ops[i + 1].Label?
  }

  /** What is compiled never runs off its end, nor to a label that isn't there. */
  lemma StaysInside<W>(host: Host<W>, ops: seq<Op>, c: Config<W>, left: Option<seq<U64>>)
    requires Accepted(ops) && c.at < |ops|
    ensures !Step(host, ops, c, left).Stuck?
    ensures Step(host, ops, c, left).Goes? ==> Step(host, ops, c, left).config.at < |ops|
  {
    var labels :| HasLabels(ops, labels) && forall op <- ops :: IsFine(op, labels);
    var op := ops[c.at];
    assert EndsRight(ops, c.at) && IsFine(op, labels);
    if op.Goto? {
      LabelIsThere(ops, op.id);
    } else if op.Branch? {
      LabelIsThere(ops, op.yes);
      LabelIsThere(ops, op.no);
    }
  }

  lemma LabelIsThere(ops: seq<Op>, id: nat)
    requires Label(id) in ops
    ensures LabelAt(ops, id) < |ops|
  {
    var i :| 0 <= i < |ops| && ops[i] == Label(id);
  }

  lemma {:induction false} RunStaysInside<W>(host: Host<W>, ops: seq<Op>, plan: Plan, c: Config<W>, fuel: nat)
    requires Accepted(ops) && c.at < |ops| && plan.Shaped()
    ensures !PlainRun(host, ops, plan, c, fuel).Stuck?
    decreases fuel
  {
    if fuel > 0 {
      var next := PlainStep(host, ops, plan, c);
      StaysInside(host, ops, c, if Flushes(host, ops, plan, c) then Look(plan, c.slots) else None);
      if next.Goes? {
        RunStaysInside(host, ops, plan, next.config, fuel - 1);
      }
    }
  }

  /** The labels of operations, if none is there twice. */
  method LabelsOf(ops: seq<Op>) returns (labels: Option<set<nat>>)
    ensures labels.Some? <==> forall i, j | 0 <= i < j < |ops| && ops[i].Label? && ops[j].Label? :: ops[i] != ops[j]
    ensures labels.Some? ==> HasLabels(ops, labels.value)
  {
    var found: set<nat> := {};
    for i := 0 to |ops|
      invariant forall j, k | 0 <= j < k < i && ops[j].Label? && ops[k].Label? :: ops[j] != ops[k]
      invariant forall id <- found :: exists j :: 0 <= j < i && ops[j] == Label(id)
      invariant forall j | 0 <= j < i && ops[j].Label? :: ops[j].id in found
    {
      if ops[i].Label? {
        if ops[i].id in found {
          return None;
        }
        found := found + {ops[i].id};
      }
    }
    labels := Some(found);
  }

  /** Whether operations are compiled. */
  method Check(ops: seq<Op>) returns (ok: bool)
    ensures ok <==> Accepted(ops)
  {
    var labels := LabelsOf(ops);
    if labels.None? {
      return false;
    }
    for i := 0 to |ops|
      invariant forall j | 0 <= j < i :: IsFine(ops[j], labels.value)
      invariant forall j | 0 <= j && j + 1 < i && Terminates(ops[j]) :: ops[j + 1].Label?
    {
      if !ops[i].Label? && i > 0 && Terminates(ops[i - 1]) {
        assert !EndsRight(ops, i - 1);
        return false;
      }
      if !IsFine(ops[i], labels.value) {
        OneSetOfLabels(ops, i, labels.value);
        return false;
      }
    }
    if |ops| == 0 || ops[0].Label? {
      return false;
    }
    for i := 0 to |ops|
      invariant forall j | 0 <= j < i :: EndsRight(ops, j)
    {
      if (i + 1 == |ops| || ops[i + 1].Label?) && !Terminates(ops[i]) {
        assert !EndsRight(ops, i);
        return false;
      }
    }
    ok := true;
  }

  lemma OneSetOfLabels(ops: seq<Op>, i: nat, labels: set<nat>)
    requires i < |ops| && HasLabels(ops, labels) && !IsFine(ops[i], labels)
    ensures !Accepted(ops)
  {
    forall others: set<nat> | HasLabels(ops, others) ensures others == labels {
      forall id: nat ensures id in others <==> id in labels {
        assert id in others ==> Label(id) in ops;
        assert id in labels ==> Label(id) in ops;
      }
    }
  }
}
