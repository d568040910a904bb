/** A run of the ranges of a chain one at a time, with each target looked up and each variable that is needed looked for
    (native/bap_jit.cpp:1813-2170): either each from slots and registers made anew of the variables between them, which is
    what obligation 17 of Bap/Jit.lean promises of `runChain`, or from those that other ranges left, as the code has it.
    Where ranges depend on just what they may read, the two come to the same. */
module ChainSpec {
  import opened Basics

  /** No slot, and no number of executions. */
  const NONE: U64 := 0xFFFF_FFFF_FFFF_FFFF

  /** What native code comes to: it fails, or goes somewhere, with its slots and the registers as it left them, and says
      whether Lean code ran. */
  datatype Outcome<W> = Failed(world: W) | Ran(next: U64, state: seq<U64>, registers: seq<U64>, world: W, leanRan: bool)

  /** An output: a variable, the slot that has it, its width, and the slot that says if it was written, if one does. */
  datatype Output = Output(variable: nat, slot: nat, width: nat, flag: Option<nat>)

  /** A range of a chain: what its code needs of the variables and what it makes of them. */
  datatype Range<!W> = Range(
    id: U64, slotCount: nat, effect: Option<nat>, budgetSlot: Option<nat>, observed: Option<nat>,
    zeroed: seq<nat>, layout: seq<(nat, nat)>, required: seq<nat>,
    outputs: seq<Output>, checkpoints: map<U64, seq<Output>>, direct: bool,
    run: (seq<U64>, seq<U64>, W) -> Outcome<W>)

  /** The variables between ranges: what each holds; 0 for one that isn't bound, 1 for one that was given, and 2 for one
      that was written; and those that were written, in order. */
  datatype Vars = Vars(registers: seq<U64>, bound: seq<nat>, dirty: seq<nat>) {
    predicate Shaped() { |registers| == |bound| }

    predicate Bound(v: nat) { v < |bound| && bound[v] != 0 }

    predicate Written(v: nat) { v < |bound| && bound[v] == 2 }
  }

  // ---------- Variables and slots ----------

  function Zeros(n: nat): (s: seq<U64>)
    ensures |s| == n
  {
    seq(n, _ => 0)
  }

  /** Room for a variable. */
  function Ensure(vars: Vars, v: nat): (e: Vars)
    requires vars.Shaped()
    ensures e.Shaped() && v < |e.bound| && |vars.bound| <= |e.bound| && e.dirty == vars.dirty
    ensures forall u :: (e.Bound(u) <==> vars.Bound(u)) && (e.Written(u) <==> vars.Written(u))
    ensures forall u: nat :: Get(e.registers, u) == Get(vars.registers, u)
  {
    if v < |vars.registers| then vars
    else
      var more := v + 1 - |vars.registers|;
      Vars(vars.registers + Zeros(more), vars.bound + seq(more, _ => 0), vars.dirty)
  }

  /** The low bits of a value. */
  function Cut(x: U64, width: nat): U64 {
    if width < 64 then Low(x, Power2(width)) else x
  }

  function Low(x: U64, p: nat): U64
    requires p > 0
  {
    LowFits(x, p);
    x % p
  }

  lemma LowFits(x: nat, p: nat)
    requires p > 0
    ensures 0 <= x % p <= x
  {
    assert x == x / p * p + x % p;
    if x / p >= 1 {
      assert x / p * p >= p;
    }
  }

  /** That a range left an output written: in its slot, which is copied, or in its register already. */
  function SayOne(vars: Vars, o: Output, state: seq<U64>, copy: bool): (said: Vars)
    requires vars.Shaped()
    ensures said.Shaped()
  {
    if o.flag.Some? && Get(state, o.flag.value) == 0 then vars
    else
      var e := Ensure(vars, o.variable);
      Vars(if copy then e.registers[o.variable := Cut(Get(state, o.slot), o.width)] else e.registers,
           e.bound[o.variable := 2],
           if e.bound[o.variable] == 2 then e.dirty else e.dirty + [o.variable])
  }

  function Say(vars: Vars, outputs: seq<Output>, state: seq<U64>, copy: bool): (said: Vars)
    requires vars.Shaped()
    ensures said.Shaped()
    decreases |outputs|
  {
    if outputs == [] then vars else Say(SayOne(vars, outputs[0], state, copy), outputs[1..], state, copy)
  }

  /** The outputs of the checkpoint where a range went, if it is one, and otherwise all of it. */
  function OutputsAt<W>(range: Range<W>, next: U64): seq<Output> {
    if next in range.checkpoints then range.checkpoints[next] else range.outputs
  }

  /** Room for slots, with those that were there. */
  function Resized(s: seq<U64>, n: nat): (r: seq<U64>)
    ensures |r| == n
  {
    if n <= |s| then s[..n] else s + Zeros(n - |s|)
  }

  function WithZeros(s: seq<U64>, slots: seq<nat>): (r: seq<U64>)
    ensures |r| == |s|
    decreases |slots|
  {
    if slots == [] then s else WithZeros(With(s, slots[0], 0), slots[1..])
  }

  function WithLayout(s: seq<U64>, layout: seq<(nat, nat)>, vars: Vars): (r: seq<U64>)
    requires vars.Shaped()
    ensures |r| == |s|
    decreases |layout|
  {
    if layout == [] then s
    else
      var (v, slot) := layout[0];
      WithLayout(if vars.Bound(v) then With(s, slot, vars.registers[v]) else s, layout[1..], vars)
  }

  function WithSlot(s: seq<U64>, slot: Option<nat>, x: U64): seq<U64> {
    if slot.Some? then With(s, slot.value, x) else s
  }

  /** The slots of a range at its start, over what is there: zeros, its variables, its budget, and nothing observed. */
  function Build<W>(under: seq<U64>, range: Range<W>, vars: Vars, budget: U64): seq<U64>
    requires vars.Shaped()
  {
    var zeros := WithZeros(under, range.zeroed);
    var all := if range.direct then zeros else WithLayout(zeros, range.layout, vars);
    WithSlot(WithSlot(all, range.budgetSlot, budget), range.observed, 0)
  }

  predicate Ready(vars: Vars, required: seq<nat>) {
    forall v <- required :: vars.Bound(v)
  }

  // ---------- What a run counts ----------

  /** How often ranges were executed, in 64 bits; how often each ran in this run, and what it executed then; and those that
      ran, in order. */
  datatype Ledger = Ledger(executions: seq<U64>, runs: seq<nat>, executed: seq<nat>, order: seq<nat>) {
    predicate Shaped() { |executions| == |runs| == |executed| }
  }

  function NewLedger(executions: seq<U64>): (l: Ledger)
    ensures l.Shaped()
  {
    Ledger(executions, seq(|executions|, _ => 0), seq(|executions|, _ => 0), [])
  }

  /** A sum in 64 bits. */
  function Added(x: U64, n: nat): U64 { Wrapped(x + n) }

  /** A range that ran once more. */
  function CountedIn(l: Ledger, i: nat, executed: nat): (m: Ledger)
    requires l.Shaped()
    ensures m.Shaped() && |m.executions| == |l.executions|
  {
    if i < |l.executions| then
      Ledger(l.executions[i := Added(l.executions[i], executed)], l.runs[i := l.runs[i] + 1],
             l.executed[i := l.executed[i] + executed], if l.runs[i] == 0 then l.order + [i] else l.order)
    else l
  }

  /** The executions of a range, less those that a run that failed counted. */
  function Restored(executions: U64, executed: nat): U64 {
    executions - if executions < executed then executions else executed
  }

  /** They are as they were just if they were never so many that they began again at 0. */
  lemma RestoredExactly(before: U64, executed: U64)
    ensures Restored(Added(before, executed), executed) == before <==> before + executed < WORD
  {
  }

  // ---------- A run, a range at a time ----------

  /** The ranges, where each starts, and how many executions bring one back to be optimized. */
  datatype Ranges<!W> = Ranges(all: seq<Range<W>>, at: map<U64, nat>, optimizeAt: seq<U64>) {
    ghost predicate Right() {
      |optimizeAt| == |all| && Placed(at, |all|)
    }
  }

  /** Whether what starts somewhere is one of so many. */
  ghost predicate Placed(at: map<U64, nat>, count: nat) {
    forall pc {:trigger at[pc]} | pc in at :: at[pc] < count
  }

  /** A run before one of its ranges: `spare` is where the slots of the next are made. */
  datatype Point<W> = Point(
    range: nat, state: seq<U64>, spare: seq<U64>, vars: Vars, budget: U64, chained: nat, world: W, first: bool, ledger: Ledger)
  {
    ghost predicate In(ranges: Ranges<W>) {
      ranges.Right() && range < |ranges.all| == |ledger.executions| && ledger.Shaped() && vars.Shaped()
    }
  }

  datatype End<W> =
    | Fails(world: W, ledger: Ledger)
    | Ends(range: nat, next: U64, state: seq<U64>, vars: Vars, chained: nat, world: W, ledger: Ledger)

  function Left<W>(range: Range<W>, state: seq<U64>, budget: U64): U64 {
    if range.budgetSlot.Some? then Get(state, range.budgetSlot.value) else budget
  }

  /** The blocks that a range entered after its first. */
  function Entered<W>(range: Range<W>, state: seq<U64>, budget: U64): (ran: U64)
    ensures ran <= budget
  {
    var left := Left(range, state, budget);
    if budget >= left then budget - left else 0
  }

  function Effect<W>(range: Range<W>, state: seq<U64>): U64 {
    if range.effect.Some? then Get(state, range.effect.value) else 0
  }

  /** The variables after a range: one with registers wrote them there. */
  function AfterRange<W>(range: Range<W>, vars: Vars, next: U64, state: seq<U64>, registers: seq<U64>): (v: Vars)
    requires vars.Shaped()
    ensures v.Shaped()
  {
    if range.direct then
      Say(vars.(registers := Resized(registers, |vars.registers|)), OutputsAt(range, next), state, false)
    else vars
  }

  /** The variables as they are for the next range. */
  function ForNext<W>(range: Range<W>, vars: Vars, next: U64, state: seq<U64>): (v: Vars)
    requires vars.Shaped()
    ensures v.Shaped()
  {
    if range.direct then vars else Say(vars, OutputsAt(range, next), state, true)
  }

  /** Variables with nothing in the registers of those that aren't bound. */
  function Blank(vars: Vars): (v: Vars)
    requires vars.Shaped()
    ensures v.Shaped()
  {
    vars.(registers := seq(|vars.registers|, i requires 0 <= i < |vars.registers| =>
                             if vars.bound[i] != 0 then vars.registers[i] else 0))
  }

  /** What is left less one, and no more than what a range has left until it comes back to be optimized. */
  function NextBudget(left: U64, optimizeAt: U64, executions: U64): (budget: nat)
    requires left >= 1
    ensures budget < left
  {
    var limit := optimizeAt - Added(executions, 1);
    if optimizeAt != NONE && 0 <= limit < left - 1 then limit else left - 1
  }

  predicate Comes<W>(ranges: Ranges<W>, target: nat, ledger: Ledger)
    requires target < |ranges.optimizeAt| && target < |ledger.executions|
  {
    ranges.optimizeAt[target] != NONE && Added(ledger.executions[target], 1) >= ranges.optimizeAt[target]
  }

  /** Whether a run goes on after a range, if there is one where it goes. */
  predicate GoesOn<W>(range: Range<W>, state: seq<U64>, budget: U64, leanRan: bool) {
    Effect(range, state) == 1 && !leanRan && range.budgetSlot.Some? && budget - Entered(range, state, budget) >= 1
  }

  /** What comes after a range: the end of the run, or the next range. */
  datatype After<W> = Stops(end: End<W>) | GoesTo(point: Point<W>)

  /** A range and what comes after it; `anew` if slots and registers are made anew. */
  ghost function Step<W>(ranges: Ranges<W>, p: Point<W>, anew: bool): (after: After<W>)
    requires p.In(ranges)
    ensures after.GoesTo? ==> after.point.In(ranges) && after.point.budget < p.budget
  {
    match ranges.all[p.range].run(p.state, p.vars.registers, p.world)
    case Failed(world) => Stops(Fails(world, p.ledger))
    case Ran(next, state, registers, world, leanRan) => StepOn(ranges, p, anew, next, state, registers, world, leanRan)
  }

  /** What comes after a range that ran. */
  ghost function StepOn<W>(
      ranges: Ranges<W>, p: Point<W>, anew: bool, next: U64, state: seq<U64>, registers: seq<U64>, world: W, leanRan: bool)
    : (after: After<W>)
    requires p.In(ranges)
    ensures after.GoesTo? ==> after.point.In(ranges) && after.point.budget < p.budget
  {
    Onward(ranges, EndAfter(ranges, p, anew, next, state, registers, world), p.budget, leanRan, p.spare, anew)
  }

  /** The end of a run, if the range that ran is its last. */
  ghost function EndAfter<W>(
      ranges: Ranges<W>, p: Point<W>, anew: bool, next: U64, state: seq<U64>, registers: seq<U64>, world: W)
    : (end: End<W>)
    requires p.In(ranges)
    ensures IsIn(ranges, end)
  {
    var range := ranges.all[p.range];
    var ran := Entered(range, state, p.budget);
    var vars := AfterRange(range, p.vars, next, state, registers);
    Ends(p.range, next, state, if anew then Blank(vars) else vars, p.chained + ran, world,
         CountedIn(p.ledger, p.range, Executed(p.first, ran)))
  }

  /** What comes after a range that has been counted, at `end` if it is the last. */
  ghost function Onward<W>(ranges: Ranges<W>, end: End<W>, budget: U64, leanRan: bool, spare: seq<U64>, anew: bool)
    : (after: After<W>)
    requires IsIn(ranges, end)
    ensures after.GoesTo? ==> after.point.In(ranges) && after.point.budget < budget
  {
    if !Leads(ranges, end, budget, leanRan) then Stops(end)
    else
      Arrive(ranges, Said(ranges, end), ranges.at[end.next], budget - Entered(ranges.all[end.range], end.state, budget), spare,
             anew)
  }

  /** Whether a run goes on from where it is, as far as can be told before the variables are. */
  ghost predicate Leads<W>(ranges: Ranges<W>, end: End<W>, budget: U64, leanRan: bool)
    requires IsIn(ranges, end)
  {
    && GoesOn(ranges.all[end.range], end.state, budget, leanRan)
    && end.next in ranges.at && !Comes(ranges, ranges.at[end.next], end.ledger)
  }

  /** The end of a run, with what its range wrote said. */
  ghost function Said<W>(ranges: Ranges<W>, end: End<W>): (e: End<W>)
    requires IsIn(ranges, end)
    ensures IsIn(ranges, e)
  {
    end.(vars := ForNext(ranges.all[end.range], end.vars, end.next, end.state))
  }

  ghost predicate IsIn<W>(ranges: Ranges<W>, end: End<W>) {
    && ranges.Right() && end.Ends? && end.range < |ranges.all| == |end.ledger.executions| && end.ledger.Shaped()
    && end.vars.Shaped()
  }

  /** What comes after a range that goes to another, with what is left of the budget: that, if what it needs is bound. Its
      slots are made over those that the range before the last left, or over zeros. */
  ghost function Arrive<W>(ranges: Ranges<W>, end: End<W>, target: nat, left: U64, spare: seq<U64>, anew: bool)
    : (after: After<W>)
    requires IsIn(ranges, end) && target < |ranges.all| && left >= 1
    ensures after.GoesTo? ==> after.point.In(ranges) && after.point.budget < left
  {
    var range := ranges.all[target];
    if !Ready(end.vars, range.required) then Stops(end)
    else
      var budget := NextBudget(left, ranges.optimizeAt[target], end.ledger.executions[target]);
      var under := if anew then Zeros(range.slotCount) else Resized(spare, range.slotCount);
      GoesTo(Point(target, Build(under, range, end.vars, budget), end.state, end.vars, budget, end.chained + 1, end.world,
                   false, end.ledger))
  }

  /** The blocks that are counted for a range: the first of the first range was counted already. */
  function Executed(first: bool, ran: nat): nat { (if first then 0 else 1) + ran }

  /** The whole run: its budget falls with each range. */
  ghost function Run<W>(ranges: Ranges<W>, p: Point<W>, anew: bool): End<W>
    requires p.In(ranges)
    decreases p.budget
  {
    match Step(ranges, p, anew)
    case Stops(end) => end
    case GoesTo(point) => Run(ranges, point, anew)
  }

  // ---------- What a range reads and tells ----------

  function Slots(slot: Option<nat>): set<nat> { if slot.Some? then {slot.value} else {} }

  /** The slots that a run of a range may read before it writes them: its zeros, its budget and what it observes, and the
      variables that it needs, if it has them in its slots. The others that it has may not be bound. */
  function Reads<W>(range: Range<W>): set<nat> {
    (set s <- range.zeroed) + Slots(range.budgetSlot) + Slots(range.observed)
    + if range.direct then {} else set pair | pair in range.layout && pair.0 in range.required :: pair.1
  }

  ghost predicate Agree(s: seq<U64>, t: seq<U64>, slots: set<nat>) {
    forall x <- slots :: Get(s, x) == Get(t, x)
  }

  /** Whether slots, as many as a range has, and registers are the same as far as it may read them: of registers, those
      that it needs. */
  ghost predicate ReadsAlike<W>(range: Range<W>, s: seq<U64>, t: seq<U64>, r: seq<U64>, q: seq<U64>) {
    && range.slotCount <= |s| && range.slotCount <= |t|
    && Agree(s, t, Reads(range)) && |r| == |q|
    && (range.direct ==> forall v <- range.required :: Get(r, v) == Get(q, v))
  }

  /** Whether a run left an output written. */
  predicate Reached(o: Output, state: seq<U64>) {
    o.flag.None? || Get(state, o.flag.value) != 0
  }

  /** Whether slots tell the same of an output: whether it was reached, and, if it is there and was, what it has. */
  predicate TellsAlike(o: Output, s: seq<U64>, t: seq<U64>, inSlot: bool) {
    && (o.flag.Some? ==> Get(s, o.flag.value) == Get(t, o.flag.value))
    && (inSlot && Reached(o, s) ==> Get(s, o.slot) == Get(t, o.slot))
  }

  ghost predicate AllToldAlike(outputs: seq<Output>, s: seq<U64>, t: seq<U64>, inSlots: bool) {
    forall o <- outputs :: TellsAlike(o, s, t, inSlots)
  }

  /** Whether slots are the same as far as they are read after a range that went somewhere. */
  ghost predicate Told<W>(range: Range<W>, next: U64, s: seq<U64>, t: seq<U64>) {
    && Effect(range, s) == Effect(range, t)
    && (range.budgetSlot.Some? ==> Get(s, range.budgetSlot.value) == Get(t, range.budgetSlot.value))
    && AllToldAlike(OutputsAt(range, next), s, t, !range.direct)
  }

  /** Whether a variable is one of those that were left written. */
  ghost predicate Says(outputs: seq<Output>, state: seq<U64>, v: nat) {
    exists o <- outputs :: o.variable == v && Reached(o, state)
  }

  /** Whether a range with registers left the same in those that it wrote, and in those that had the same. */
  ghost predicate LeftAlike(
      outputs: seq<Output>, state: seq<U64>, r: seq<U64>, q: seq<U64>, rAfter: seq<U64>, qAfter: seq<U64>)
  {
    forall v: nat {:trigger Get(rAfter, v)} {:trigger Get(qAfter, v)} |
      v < |r| && (Get(r, v) == Get(q, v) || Says(outputs, state, v)) :: Get(rAfter, v) == Get(qAfter, v)
  }

  ghost predicate SameOutcome<W>(range: Range<W>, r: seq<U64>, q: seq<U64>, a: Outcome<W>, b: Outcome<W>) {
    match a
    case Failed(world) => b == a
    case Ran(next, state, registers, world, leanRan) =>
      && b.Ran? && b == Ran(next, b.state, b.registers, world, leanRan) && Told(range, next, state, b.state)
      && (range.direct ==> LeftAlike(OutputsAt(range, next), state, r, q, registers, b.registers))
  }

  /** Whether what a range does depends on just what it may read, so that what it tells does too. */
  ghost predicate Respects<W(!new)>(range: Range<W>) {
    forall s: seq<U64>, t: seq<U64>, r: seq<U64>, q: seq<U64>, world: W
      {:trigger range.run(s, r, world), range.run(t, q, world)}
      | ReadsAlike(range, s, t, r, q) :: SameOutcome(range, r, q, range.run(s, r, world), range.run(t, q, world))
  }

  ghost predicate AllRespect<W(!new)>(ranges: Ranges<W>) {
    forall i | 0 <= i < |ranges.all| :: Respects(ranges.all[i])
  }

  /** Whether all that a range says of slots is of slots that it has, with widths that there are. */
  predicate Fits<W>(range: Range<W>) {
    && (forall x <- Slots(range.effect) + Slots(range.budgetSlot) + Slots(range.observed) :: x < range.slotCount)
    && (forall x <- range.zeroed :: x < range.slotCount)
    && (forall pair <- range.layout :: pair.1 < range.slotCount)
    && (forall o <- range.outputs :: OutputFits(o, range.slotCount))
    && (forall pc <- range.checkpoints :: forall o <- range.checkpoints[pc] :: OutputFits(o, range.slotCount))
  }

  predicate OutputFits(o: Output, slotCount: nat) {
    o.slot < slotCount && 1 <= o.width <= 64 && (o.flag.Some? ==> o.flag.value < slotCount)
  }

  // ---------- What is said once ----------

  /** Whether all that a range always writes is said to be written. */
  ghost predicate AllSaid(vars: Vars, outputs: seq<Output>) {
    forall o <- outputs | o.flag.None? :: vars.Written(o.variable)
  }

  /** The outputs that a flag decides. */
  function Flagged(outputs: seq<Output>): seq<Output> {
    if outputs == [] then [] else (if outputs[0].flag.Some? then [outputs[0]] else []) + Flagged(outputs[1..])
  }

  /** Whether what is bound and what is written still is. */
  ghost predicate Keeps(vars: Vars, next: Vars) {
    forall v: nat {:trigger next.Bound(v)} {:trigger next.Written(v)} ::
      (vars.Bound(v) ==> next.Bound(v)) && (vars.Written(v) ==> next.Written(v))
  }

  lemma {:induction false} SayKeeps(vars: Vars, outputs: seq<Output>, state: seq<U64>, copy: bool)
    requires vars.Shaped()
    ensures Keeps(vars, Say(vars, outputs, state, copy))
    decreases |outputs|
  {
    if outputs != [] {
      var said := SayOne(vars, outputs[0], state, copy);
      SayKeeps(said, outputs[1..], state, copy);
      forall v: nat ensures (vars.Bound(v) ==> said.Bound(v)) && (vars.Written(v) ==> said.Written(v)) {
        SayOneAt(vars, outputs[0], state, copy, v);
      }
    }
  }

  /** What saying an output does to each variable. */
  lemma SayOneAt(vars: Vars, o: Output, state: seq<U64>, copy: bool, v: nat)
    requires vars.Shaped()
    ensures var said, tells := SayOne(vars, o, state, copy), o.flag.None? || Get(state, o.flag.value) != 0;
            && (said.Bound(v) <==> vars.Bound(v) || (tells && v == o.variable))
            && (said.Written(v) <==> vars.Written(v) || (tells && v == o.variable))
  {
    var e := Ensure(vars, o.variable);
    assert (e.Bound(v) <==> vars.Bound(v)) && (e.Written(v) <==> vars.Written(v));
  }

  /** Once what is always written was said to be, to say just what has a flag is to say it all. */
  lemma {:induction false} SayFlagged(vars: Vars, outputs: seq<Output>, state: seq<U64>)
    requires vars.Shaped() && AllSaid(vars, outputs)
    ensures Say(vars, Flagged(outputs), state, false) == Say(vars, outputs, state, false)
    decreases |outputs|
  {
    if outputs != [] {
      var o, rest := outputs[0], outputs[1..];
      var said := SayOne(vars, o, state, false);
      SayKeeps(vars, [o], state, false);
      assert Say(vars, [o], state, false) == said by {
        assert [o][1..] == [];
      }
      SayFlagged(said, rest, state);
      if o.flag.Some? {
        var flagged := Flagged(outputs);
        assert flagged == [o] + Flagged(rest);
        assert flagged[0] == o && flagged[1..] == Flagged(rest);
        assert Say(vars, flagged, state, false) == Say(said, flagged[1..], state, false);
      } else {
        assert vars.Written(o.variable) && said == vars;
        assert Flagged(outputs) == Flagged(rest);
      }
    }
  }

  lemma {:induction false} SaySaid(vars: Vars, outputs: seq<Output>, state: seq<U64>)
    requires vars.Shaped()
    ensures AllSaid(Say(vars, outputs, state, false), outputs)
    decreases |outputs|
  {
    if outputs != [] {
      var said := SayOne(vars, outputs[0], state, false);
      SaySaid(said, outputs[1..], state);
      SayKeeps(said, outputs[1..], state, false);
      SayOneAt(vars, outputs[0], state, false, outputs[0].variable);
      var end := Say(said, outputs[1..], state, false);
      assert end == Say(vars, outputs, state, false);
      forall o | o in outputs && o.flag.None? ensures end.Written(o.variable) {
        assert o == outputs[0] || o in outputs[1..];
      }
    }
  }

  /** Whether each variable that was written is listed once, and no other. */
  ghost predicate Listed(vars: Vars) {
    && (forall v: nat :: v in vars.dirty <==> vars.Written(v))
    && (forall i, j | 0 <= i < j < |vars.dirty| :: vars.dirty[i] != vars.dirty[j])
  }

  lemma {:induction false} SayLists(vars: Vars, outputs: seq<Output>, state: seq<U64>, copy: bool)
    requires vars.Shaped() && Listed(vars)
    ensures Listed(Say(vars, outputs, state, copy))
    decreases |outputs|
  {
    if outputs != [] {
      SayOneLists(vars, outputs[0], state, copy);
      SayLists(SayOne(vars, outputs[0], state, copy), outputs[1..], state, copy);
    }
  }

  lemma SayOneLists(vars: Vars, o: Output, state: seq<U64>, copy: bool)
    requires vars.Shaped() && Listed(vars)
    ensures Listed(SayOne(vars, o, state, copy))
  {
    var said := SayOne(vars, o, state, copy);
    if !(o.flag.Some? && Get(state, o.flag.value) == 0) {
      SayOneAt(vars, o, state, copy, o.variable);
      var e := Ensure(vars, o.variable);
      assert e.Written(o.variable) <==> vars.Written(o.variable);
      forall v: nat ensures v in said.dirty <==> said.Written(v) {
        SayOneAt(vars, o, state, copy, v);
        assert v in vars.dirty <==> vars.Written(v);
      }
    }
  }
}
