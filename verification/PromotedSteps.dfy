/** What each operation of optimized code does, in every run (native/bap_jit.cpp:688-1043), apart from how a step of the
    code is worked out. */
module PromotedSteps {
  import opened Basics
  import opened Operations
  import opened Promotion

  /** Whether code goes on somewhere, with copies and a world. */
  ghost predicate GoesOn<W>(after: Result<W>, at: nat, slots: seq<U64>, world: W) {
    after.Continues? && after.promoted.copies == Config(at, slots, world)
  }

  /** Whether a place is that of a label, or past the end if there is none. */
  ghost predicate IsLabel(ops: seq<Op>, id: nat, at: nat) {
    if Label(id) in ops then at < |ops| && ops[at] == Label(id) else at >= |ops|
  }

  /** Whether slots are others with one changed. */
  ghost predicate OneChanged(slots: seq<U64>, now: seq<U64>, s: nat, value: U64) {
    && |now| == |slots| && (s < |slots| ==> now[s] == value)
    && forall t | 0 <= t < |slots| && t != s :: now[t] == slots[t]
  }

  /** What the Lean code of a site is left to look at: at one that flushes, without a chain, what the slots that are read
      after a run have now. */
  ghost predicate Sees(plan: Plan, slots: seq<U64>, pc: U64, seen: Option<seq<U64>>) {
    if pc in plan.flushes && !plan.chained then
      seen.Some? && |seen.value| == |slots| == |plan.readAfter|
      && forall s | 0 <= s < |slots| :: seen.value[s] == if plan.readAfter[s] then slots[s] else 0
    else seen.None?
  }

  /** Whether code ends, with a value and a world, and leaves the slots that are read after it, each at its home, if no
      other that is left has that. */
  ghost predicate EndsAs<W>(after: Result<W>, plan: Plan, value: U64, slots: seq<U64>, world: W) {
    && after.Ends? && after.value == value && after.world == world
    && plan.Shaped() && |slots| == |plan.homes|
    && forall s | 0 <= s < |slots| && plan.readAfter[s] && AloneAt(plan, s) && after.places.Has(plan.homes[s]) ::
         after.places.At(plan.homes[s]) == slots[s]
  }

  /** What the operation that code is at makes of its copies and its world. */
  ghost predicate Does<W>(host: Host<W>, ops: seq<Op>, plan: Plan, c: Config<W>, after: Result<W>)
    requires c.at < |ops|
  {
    var op, on, slots, world := ops[c.at], c.at + 1, c.slots, c.world;
    match op
    case Jump(target) => EndsAs(after, plan, target, slots, world)
    case JumpSlot(src) => EndsAs(after, plan, Get(slots, src), slots, world)
    case Label(_) => GoesOn(after, on, slots, world)
    case Goto(id) => exists at: nat :: IsLabel(ops, id, at) && GoesOn(after, at, slots, world)
    case Branch(condition, yes, no) =>
      exists at: nat :: IsLabel(ops, if Get(slots, condition) != 0 then yes else no, at) && GoesOn(after, at, slots, world)
    case MemLoad(dst, address, size, big) =>
      var loaded := host.load(world, Get(slots, address), size, big);
      exists now :: OneChanged(slots, now, dst, loaded.1) && GoesOn(after, on, now, loaded.0)
    case MemStore(address, stored, size, big) =>
      GoesOn(after, on, slots, host.store(world, Get(slots, address), size, big, Get(slots, stored)))
    case Code(effect, pc) =>
      if !host.calls(world, pc) then GoesOn(after, on, slots, host.pass(world, pc))
      else exists seen :: Sees(plan, slots, pc, seen) && PassesSite(host, plan, c, effect, pc, seen, after)
    case _ =>
      exists value, now :: Promised(op, slots, value) && OneChanged(slots, now, op.dst, value) && GoesOn(after, on, now, world)
  }

  /** A site that calls Lean code goes on after it, or stops: with 3 in the slot for that, at the pc of the site. */
  ghost predicate PassesSite<W>(
      host: Host<W>, plan: Plan, c: Config<W>, effect: nat, pc: U64, seen: Option<seq<U64>>, after: Result<W>)
  {
    var (world, stops) := host.site(c.world, pc, seen);
    if !stops then GoesOn(after, c.at + 1, c.slots, world)
    else exists now :: OneChanged(c.slots, now, effect, 3) && EndsAs(after, plan, pc, now, world)
  }

  // ---------- In every run ----------

  /** A run of some steps and one more. */
  lemma {:induction false} OneMore<W>(host: Host<W>, ops: seq<Op>, plan: Plan, p: Promoted<W>, fuel: nat)
    requires plan.Shaped() && |p.copies.slots| == |plan.homes|
    requires PromotedRun(host, ops, plan, p, fuel).Continues?
    ensures var q := PromotedRun(host, ops, plan, p, fuel).promoted;
            |q.copies.slots| == |plan.homes| ==>
              PromotedRun(host, ops, plan, p, fuel + 1) == PromotedRun(host, ops, plan, q, 1)
    decreases fuel
  {
    if fuel > 0 {
      var next := PromotedStep(host, ops, plan, p);
      if next.Continues? && |next.promoted.copies.slots| == |plan.homes| {
        OneMore(host, ops, plan, next.promoted, fuel - 1);
      }
    }
  }

  lemma EndsRight<W>(plan: Plan, start: Places, value: U64, slots: seq<U64>, world: W)
    requires plan.Shaped() && Untouched(plan, Copies(plan, start), slots)
    ensures EndsAs(Ends(value, WriteBack(plan, start, slots, 0), world), plan, value, slots, world)
  {
    var places := WriteBack(plan, start, slots, 0);
    forall s | 0 <= s < |slots| && plan.readAfter[s] && AloneAt(plan, s) && places.Has(plan.homes[s])
      ensures places.At(plan.homes[s]) == slots[s] {
      AloneIsLeft(plan, start, slots, s);
    }
  }

  /** Whether a step of optimized code is from where a run has got to. */
  ghost predicate InRun<W>(ops: seq<Op>, plan: Plan, start: Places, p: Promoted<W>) {
    && Knows(plan, ops) && Housed(plan, start) && p.copies.at < |ops|
    && SameElsewhere(plan, start, p.places) && Untouched(plan, Copies(plan, start), p.copies.slots)
  }

  lemma LabelIsThere(ops: seq<Op>, id: nat)
    ensures IsLabel(ops, id, LabelAt(ops, id))
  {
    assert LabelAt(ops, id) == LabelFrom(ops, id, 0);
  }

  lemma Computing<W>(host: Host<W>, ops: seq<Op>, plan: Plan, start: Places, p: Promoted<W>)
    requires InRun(ops, plan, start, p) && Computes(ops[p.copies.at])
    requires forall op, args :: host.compute(op, args) == Compute(op, args)
    ensures Does(host, ops, plan, p.copies, PromotedStep(host, ops, plan, p))
  {
    var op, slots := ops[p.copies.at], p.copies.slots;
    var value := Compute(op, GetAll(slots, Reads(op)));
    ComputeIsRight(op, slots);
    assert Promised(op, slots, value) && OneChanged(slots, With(slots, op.dst, value), op.dst, value);
    assert GoesOn(PromotedStep(host, ops, plan, p), p.copies.at + 1, With(slots, op.dst, value), p.copies.world);
  }

  lemma Jumping<W>(host: Host<W>, ops: seq<Op>, plan: Plan, start: Places, p: Promoted<W>)
    requires InRun(ops, plan, start, p)
    requires var op := ops[p.copies.at]; op.Jump? || op.JumpSlot? || op.Label? || op.Goto? || op.Branch?
    ensures Does(host, ops, plan, p.copies, PromotedStep(host, ops, plan, p))
  {
    var slots, after := p.copies.slots, PromotedStep(host, ops, plan, p);
    StepsAlike(host, ops, plan, start, p);
    match ops[p.copies.at]
    case Jump(target) => EndsRight(plan, start, target, slots, p.copies.world);
    case JumpSlot(src) => EndsRight(plan, start, Get(slots, src), slots, p.copies.world);
    case Goto(id) =>
      LabelIsThere(ops, id);
      assert GoesOn(after, LabelAt(ops, id), slots, p.copies.world);
    case Branch(condition, yes, no) =>
      var id := if Get(slots, condition) != 0 then yes else no;
      LabelIsThere(ops, id);
      assert GoesOn(after, LabelAt(ops, id), slots, p.copies.world);
    case _ =>
  }

  lemma Accessing<W>(host: Host<W>, ops: seq<Op>, plan: Plan, start: Places, p: Promoted<W>)
    requires InRun(ops, plan, start, p) && (ops[p.copies.at].MemLoad? || ops[p.copies.at].MemStore?)
    ensures Does(host, ops, plan, p.copies, PromotedStep(host, ops, plan, p))
  {
    var op, slots := ops[p.copies.at], p.copies.slots;
    if op.MemLoad? {
      var (world, value) := host.load(p.copies.world, Get(slots, op.address), op.size, op.big);
      assert OneChanged(slots, With(slots, op.dst, value), op.dst, value);
      assert GoesOn(PromotedStep(host, ops, plan, p), p.copies.at + 1, With(slots, op.dst, value), world);
    }
  }

  /** A code site. */
  lemma Passing<W>(host: Host<W>, ops: seq<Op>, plan: Plan, start: Places, p: Promoted<W>)
    requires InRun(ops, plan, start, p) && ops[p.copies.at].Code?
    ensures Does(host, ops, plan, p.copies, PromotedStep(host, ops, plan, p))
  {
    var op, slots, after := ops[p.copies.at], p.copies.slots, PromotedStep(host, ops, plan, p);
    StepsAlike(host, ops, plan, start, p);
    if host.calls(p.copies.world, op.pc) {
      var seen := if Flushes(host, ops, plan, p.copies) then Look(plan, slots) else None;
      assert Sees(plan, slots, op.pc, seen);
      var (world, stops) := host.site(p.copies.world, op.pc, seen);
      var now := With(slots, op.effect, 3);
      if stops {
        assert OneChanged(slots, now, op.effect, 3);
        EndsRight(plan, start, op.pc, now, world);
      }
      assert PassesSite(host, plan, p.copies, op.effect, op.pc, seen, after);
    }
  }

  /** In every run of optimized code each operation that it comes to does what is said of it, whatever the host. */
  lemma EveryStepIsPromised<W>(host: Host<W>, ops: seq<Op>, plan: Plan, start: Places, at: nat, world: W, fuel: nat)
    requires Knows(plan, ops) && Housed(plan, start)
    requires forall op, args :: host.compute(op, args) == Compute(op, args)
    ensures var p := Promoted(Config(at, Copies(plan, start), world), start);
            var before, after := PromotedRun(host, ops, plan, p, fuel), PromotedRun(host, ops, plan, p, fuel + 1);
            before.Continues? && before.promoted.copies.at < |ops| ==> Does(host, ops, plan, before.promoted.copies, after)
  {
    var p := Promoted(Config(at, Copies(plan, start), world), start);
    var before := PromotedRun(host, ops, plan, p, fuel);
    RunsAlike(host, ops, plan, start, p, fuel);
    if before.Continues? && before.promoted.copies.at < |ops| {
      OneMore(host, ops, plan, p, fuel);
      var q := before.promoted;
      var op := ops[q.copies.at];
      if Computes(op) {
        Computing(host, ops, plan, start, q);
      } else if op.MemLoad? || op.MemStore? {
        Accessing(host, ops, plan, start, q);
      } else if op.Code? {
        Passing(host, ops, plan, start, q);
      } else {
        Jumping(host, ops, plan, start, q);
      }
    }
  }
}
