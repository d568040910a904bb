/** What a range of a chain leaves in the variables, what the slots of the next have, and when a run goes on to it
    (native/bap_jit.cpp:2021-2106), apart from how a step of the run is worked out. */
module ChainSteps {
  import opened Basics
  import opened ChainSpec

  // ---------- What variables hold ----------

  /** Whether a value is the low bits of another: it is less than the power of 2, and differs by a multiple of that. */
  ghost predicate IsLow(x: U64, width: nat, value: U64) {
    if width >= 64 then value == x else value < Power2(width) && exists k: nat :: x == value + k * Power2(width)
  }

  lemma CutIsLow(x: U64, width: nat)
    ensures IsLow(x, width, Cut(x, width))
  {
    if width < 64 {
      RestIsLow(x, Power2(width));
      var k: nat := x / Power2(width);
      assert x == Cut(x, width) + k * Power2(width);
    }
  }

  lemma RestIsLow(x: nat, p: nat)
    requires p > 0
    ensures x % p < p && x / p >= 0 && x == x % p + x / p * p
  {
  }

  /** Whether variables are others but for one, which is written and listed now. */
  ghost predicate OneWritten(vars: Vars, said: Vars, v: nat) {
    && vars.Shaped() && said.Shaped() && said.Written(v)
    && (forall u: nat | u != v :: (said.Bound(u) <==> vars.Bound(u)) && (said.Written(u) <==> vars.Written(u)))
    && (forall u: nat | u != v :: Get(said.registers, u) == Get(vars.registers, u))
    && said.dirty == if vars.Written(v) then vars.dirty else vars.dirty + [v]
  }

  /** To say an output that was reached leaves the low bits of its slot, of its width, in the register of its variable, or
      that as it is where the range wrote there; to say one that was not leaves everything. */
  lemma SayOneIs(vars: Vars, o: Output, state: seq<U64>, copy: bool)
    requires vars.Shaped()
    ensures var said, reached := SayOne(vars, o, state, copy), o.flag.None? || Get(state, o.flag.value) != 0;
            if !reached then said == vars
            else
              && OneWritten(vars, said, o.variable)
              && if copy then IsLow(Get(state, o.slot), o.width, Get(said.registers, o.variable))
                 else Get(said.registers, o.variable) == Get(vars.registers, o.variable)
  {
    var said := SayOne(vars, o, state, copy);
    var e := Ensure(vars, o.variable);
    if Reached(o, state) {
      CutIsLow(Get(state, o.slot), o.width);
      assert e.Written(o.variable) <==> vars.Written(o.variable);
      forall u: nat | u != o.variable
        ensures (said.Bound(u) <==> vars.Bound(u)) && (said.Written(u) <==> vars.Written(u))
        ensures Get(said.registers, u) == Get(vars.registers, u) {
        assert (e.Bound(u) <==> vars.Bound(u)) && (e.Written(u) <==> vars.Written(u));
        assert Get(e.registers, u) == Get(vars.registers, u);
      }
      assert Get(e.registers, o.variable) == Get(vars.registers, o.variable);
    }
  }

  /** Whether no two outputs are of one variable. */
  ghost predicate OfOneEach(outputs: seq<Output>) {
    forall i, j | 0 <= i < j < |outputs| :: outputs[i].variable != outputs[j].variable
  }

  /** Whether what is said of outputs is so, for a variable: it has the low bits of the slot of its output, if that was
      reached, and what it had if there is none, or it was not. */
  ghost predicate HasSaid(vars: Vars, said: Vars, outputs: seq<Output>, state: seq<U64>, v: nat) {
    && (forall o <- outputs | o.variable == v && Reached(o, state) ::
          said.Written(v) && IsLow(Get(state, o.slot), o.width, Get(said.registers, v)))
    && (!Says(outputs, state, v) ==>
          && Get(said.registers, v) == Get(vars.registers, v)
          && (said.Bound(v) <==> vars.Bound(v)) && (said.Written(v) <==> vars.Written(v)))
  }

  /** To say outputs that are of one variable each leaves the low bits of each slot in its variable, and others as they are. */
  lemma {:induction false} SayHas(vars: Vars, outputs: seq<Output>, state: seq<U64>, v: nat)
    requires vars.Shaped() && OfOneEach(outputs)
    ensures HasSaid(vars, Say(vars, outputs, state, true), outputs, state, v)
    decreases |outputs|
  {
    if outputs != [] {
      var o, rest := outputs[0], outputs[1..];
      var one := SayOne(vars, o, state, true);
      SayOneIs(vars, o, state, true);
      SayHas(one, rest, state, v);
      assert forall r <- rest :: r in outputs && r.variable != o.variable;
      assert o in outputs;
      if o.variable == v && Reached(o, state) {
        assert !Says(rest, state, v);
      } else if !Says(outputs, state, v) {
        assert !Says(rest, state, v);
      }
    }
  }

  /** What a range without registers leaves in the variables for the next: of the outputs of where it went. */
  lemma ForNextHas<W>(range: Range<W>, vars: Vars, next: U64, state: seq<U64>, v: nat)
    requires vars.Shaped() && !range.direct
    requires OfOneEach(if next in range.checkpoints then range.checkpoints[next] else range.outputs)
    ensures AfterRange(range, vars, next, state, vars.registers) == vars
    ensures HasSaid(vars, ForNext(range, vars, next, state),
                    if next in range.checkpoints then range.checkpoints[next] else range.outputs, state, v)
  {
    SayHas(vars, OutputsAt(range, next), state, v);
  }

  /** And one with registers: what it wrote there, all of it, with its outputs written. */
  lemma {:induction false} SayInPlace(vars: Vars, outputs: seq<Output>, state: seq<U64>, v: nat)
    requires vars.Shaped()
    ensures var said := Say(vars, outputs, state, false);
            && Get(said.registers, v) == Get(vars.registers, v)
            && (said.Written(v) <==> vars.Written(v) || Says(outputs, state, v))
            && (said.Bound(v) <==> vars.Bound(v) || Says(outputs, state, v))
    decreases |outputs|
  {
    if outputs != [] {
      var o, rest := outputs[0], outputs[1..];
      SayOneIs(vars, o, state, false);
      SayInPlace(SayOne(vars, o, state, false), rest, state, v);
      assert o in outputs;
      assert Says(outputs, state, v) <==> (o.variable == v && Reached(o, state)) || Says(rest, state, v) by {
        assert forall p :: p in outputs <==> p == o || p in rest;
      }
    }
  }

  lemma AfterRangeHas<W>(range: Range<W>, vars: Vars, next: U64, state: seq<U64>, registers: seq<U64>, v: nat)
    requires vars.Shaped() && range.direct
    ensures var said := AfterRange(range, vars, next, state, registers);
            var outputs := if next in range.checkpoints then range.checkpoints[next] else range.outputs;
            && ForNext(range, said, next, state) == said
            && Get(said.registers, v) == (if v < |vars.registers| then Get(registers, v) else 0)
            && (said.Written(v) <==> vars.Written(v) || Says(outputs, state, v))
  {
    var there := vars.(registers := Resized(registers, |vars.registers|));
    SayInPlace(there, OutputsAt(range, next), state, v);
    assert there.Written(v) <==> vars.Written(v);
  }

  // ---------- What the slots of a range have ----------

  /** What a slot of a range has at its start: nothing observed; the budget; the register of the last variable of it that is
      bound, for a range without registers; a zero, if it is to be one; and otherwise what was there. */
  ghost predicate HasAtStart<W>(under: seq<U64>, range: Range<W>, vars: Vars, budget: U64, x: nat, value: U64) {
    if range.observed == Some(x) then value == 0
    else if range.budgetSlot == Some(x) then value == budget
    else if !range.direct && exists pair <- range.layout :: pair.1 == x && vars.Bound(pair.0) then
      exists i :: 0 <= i < |range.layout| && range.layout[i].1 == x && vars.Bound(range.layout[i].0)
                  && value == Get(vars.registers, range.layout[i].0)
                  && forall j | i < j < |range.layout| && range.layout[j].1 == x :: !vars.Bound(range.layout[j].0)
    else if x in range.zeroed then value == 0 else value == Get(under, x)
  }

  lemma {:induction false} ZeroedAt(s: seq<U64>, slots: seq<nat>, x: nat)
    ensures Get(WithZeros(s, slots), x) == if x in slots then 0 else Get(s, x)
    decreases |slots|
  {
    if slots != [] {
      ZeroedAt(With(s, slots[0], 0), slots[1..], x);
    }
  }

  /** The last place in a layout of a slot whose variable is bound. */
  ghost function LastBound(layout: seq<(nat, nat)>, vars: Vars, x: nat): (last: Option<nat>)
    ensures last.None? ==> forall i | 0 <= i < |layout| && layout[i].1 == x :: !vars.Bound(layout[i].0)
    ensures last.Some? ==>
              && last.value < |layout| && layout[last.value].1 == x && vars.Bound(layout[last.value].0)
              && forall j | last.value < j < |layout| && layout[j].1 == x :: !vars.Bound(layout[j].0)
    decreases |layout|
  {
    if layout == [] then None
    else
      var n := |layout| - 1;
      if layout[n].1 == x && vars.Bound(layout[n].0) then Some(n) else LastBound(layout[..n], vars, x)
  }

  lemma {:induction false} LayoutEnds(s: seq<U64>, layout: seq<(nat, nat)>, vars: Vars, pair: (nat, nat))
    requires vars.Shaped()
    ensures WithLayout(s, layout + [pair], vars)
            == var all := WithLayout(s, layout, vars);
               if vars.Bound(pair.0) then With(all, pair.1, vars.registers[pair.0]) else all
    decreases |layout|
  {
    var all := layout + [pair];
    if layout == [] {
      assert all[1..] == [] && all[0] == pair;
    } else {
      assert all[0] == layout[0] && all[1..] == layout[1..] + [pair];
      var (v, slot) := layout[0];
      LayoutEnds(if vars.Bound(v) then With(s, slot, vars.registers[v]) else s, layout[1..], vars, pair);
    }
  }

  lemma {:induction false} LaidAt(s: seq<U64>, layout: seq<(nat, nat)>, vars: Vars, x: nat)
    requires vars.Shaped() && x < |s|
    ensures Get(WithLayout(s, layout, vars), x)
            == match LastBound(layout, vars, x) case None => s[x] case Some(i) => Get(vars.registers, layout[i].0)
    decreases |layout|
  {
    if layout != [] {
      var n := |layout| - 1;
      assert layout == layout[..n] + [layout[n]];
      LayoutEnds(s, layout[..n], vars, layout[n]);
      LaidAt(s, layout[..n], vars, x);
    }
  }

  lemma BuildHas<W>(under: seq<U64>, range: Range<W>, vars: Vars, budget: U64, x: nat)
    requires vars.Shaped() && x < |under|
    ensures HasAtStart(under, range, vars, budget, x, Get(Build(under, range, vars, budget), x))
  {
    var zeros := WithZeros(under, range.zeroed);
    ZeroedAt(under, range.zeroed, x);
    LaidAt(zeros, range.layout, vars, x);
    var last := LastBound(range.layout, vars, x);
    if last.Some? {
      assert range.layout[last.value] in range.layout;
    }
  }

  // ---------- What is counted ----------

  /** Counting a range once more: in 64 bits of all times, and exactly in this run; it is listed if it was not. */
  lemma CountedIs(l: Ledger, i: nat, executed: nat, j: nat)
    requires l.Shaped() && i < |l.executions| && j < |l.executions|
    ensures var m := CountedIn(l, i, executed);
            && m.Shaped() && |m.executions| == |l.executions|
            && m.order == (if l.runs[i] == 0 then l.order + [i] else l.order)
            && if j == i then
                 m.executions[j] == (l.executions[j] + executed) % 0x1_0000_0000_0000_0000
                 && m.runs[j] == l.runs[j] + 1 && m.executed[j] == l.executed[j] + executed
               else m.executions[j] == l.executions[j] && m.runs[j] == l.runs[j] && m.executed[j] == l.executed[j]
  {
  }

  // ---------- When a run goes on ----------

  /** How many blocks a range entered after its first: what is gone of the budget, if it has a slot for that. */
  ghost function Gone<W>(range: Range<W>, state: seq<U64>, budget: U64): (gone: nat)
    ensures gone <= budget
  {
    if range.budgetSlot.Some? && Get(state, range.budgetSlot.value) <= budget then budget - Get(state, range.budgetSlot.value)
    else 0
  }

  /** How many executions a range still has once it is executed once more, before it comes back to be optimized. */
  ghost function Until(optimizeAt: int, executions: int): int { optimizeAt - (executions + 1) % 0x1_0000_0000_0000_0000 }

  /** Whether a range that ran may lead on: it says so, no Lean code ran, there is more of the budget, and there is a range
      where it went that isn't to be optimized first. */
  ghost predicate MayLead<W>(ranges: Ranges<W>, p: Point<W>, next: U64, state: seq<U64>, leanRan: bool, ledger: Ledger)
    requires p.In(ranges)
  {
    var range := ranges.all[p.range];
    && range.effect.Some? && Get(state, range.effect.value) == 1 && !leanRan
    && range.budgetSlot.Some? && Gone(range, state, p.budget) < p.budget
    && next in ranges.at && |ledger.executions| == |ranges.all|
    && var target := ranges.at[next];
    && (ranges.optimizeAt[target] == 0xFFFF_FFFF_FFFF_FFFF
        || Until(ranges.optimizeAt[target], ledger.executions[target]) > 0)
  }

  /** Whether a run is before the next range as it is to be: with what is left of the budget less one, and less so if the
      range comes back to be optimized before; with what was gone of it and the next block counted; and with its slots. */
  ghost predicate IsNext<W>(
      ranges: Ranges<W>, p: Point<W>, q: Point<W>, next: U64, state: seq<U64>, vars: Vars, world: W, ledger: Ledger, anew: bool)
    requires p.In(ranges)
  {
    var gone := Gone(ranges.all[p.range], state, p.budget);
    && next in ranges.at && |ledger.executions| == |ranges.all|
    && var target := ranges.at[next];
    && var left: int := p.budget - gone - 1;
    && var until := Until(ranges.optimizeAt[target], ledger.executions[target]);
    && q.range == target && q.vars == vars && q.world == world && q.ledger == ledger && !q.first
    && q.chained == p.chained + gone + 1 && q.spare == state
    && q.budget == (if ranges.optimizeAt[target] != 0xFFFF_FFFF_FFFF_FFFF && until < left then until else left)
    && |q.state| == ranges.all[target].slotCount
    && forall x | 0 <= x < |q.state| ::
         HasAtStart(if anew then [] else p.spare, ranges.all[target], vars, q.budget, x, q.state[x])
  }

  /** The variables once a range ran, as a run that ends there gives them back. */
  ghost function VarsAfter<W>(range: Range<W>, vars: Vars, next: U64, state: seq<U64>, registers: seq<U64>, anew: bool): Vars
    requires vars.Shaped()
  {
    var after := AfterRange(range, vars, next, state, registers);
    if anew then Blank(after) else after
  }

  /** What becomes of a run at a range that ran. */
  ghost predicate IsStep<W>(
      ranges: Ranges<W>, p: Point<W>, anew: bool, next: U64, state: seq<U64>, registers: seq<U64>, world: W, leanRan: bool,
      after: After<W>)
    requires p.In(ranges)
  {
    var range, gone := ranges.all[p.range], Gone(ranges.all[p.range], state, p.budget);
    var ledger := CountedIn(p.ledger, p.range, (if p.first then 0 else 1) + gone);
    var vars := VarsAfter(range, p.vars, next, state, registers, anew);
    var said := ForNext(range, vars, next, state);
    if !MayLead(ranges, p, next, state, leanRan, ledger)
    then after == Stops(Ends(p.range, next, state, vars, p.chained + gone, world, ledger))
    else if exists v <- ranges.all[ranges.at[next]].required :: !said.Bound(v)
    then after == Stops(Ends(p.range, next, state, said, p.chained + gone, world, ledger))
    else after.GoesTo? && IsNext(ranges, p, after.point, next, state, said, world, ledger, anew)
  }

  /** What becomes of a run at any range. */
  lemma StepIs<W>(ranges: Ranges<W>, p: Point<W>, anew: bool)
    requires p.In(ranges)
    ensures match ranges.all[p.range].run(p.state, p.vars.registers, p.world)
            case Failed(world) => Step(ranges, p, anew) == Stops(Fails(world, p.ledger))
            case Ran(next, state, registers, world, leanRan) =>
              IsStep(ranges, p, anew, next, state, registers, world, leanRan, Step(ranges, p, anew))
  {
    match ranges.all[p.range].run(p.state, p.vars.registers, p.world)
    case Failed(_) =>
    case Ran(next, state, registers, world, leanRan) => RanIs(ranges, p, anew, next, state, registers, world, leanRan);
  }

  lemma LeadIs<W>(ranges: Ranges<W>, p: Point<W>, end: End<W>, leanRan: bool)
    requires p.In(ranges) && IsIn(ranges, end) && end.range == p.range
    ensures Leads(ranges, end, p.budget, leanRan) <==> MayLead(ranges, p, end.next, end.state, leanRan, end.ledger)
    ensures Entered(ranges.all[p.range], end.state, p.budget) == Gone(ranges.all[p.range], end.state, p.budget)
  {
  }

  lemma RanIs<W>(
      ranges: Ranges<W>, p: Point<W>, anew: bool, next: U64, state: seq<U64>, registers: seq<U64>, world: W, leanRan: bool)
    requires p.In(ranges)
    ensures IsStep(ranges, p, anew, next, state, registers, world, leanRan,
                   StepOn(ranges, p, anew, next, state, registers, world, leanRan))
  {
    var end := EndAfter(ranges, p, anew, next, state, registers, world);
    LeadIs(ranges, p, end, leanRan);
    if Leads(ranges, end, p.budget, leanRan) {
      ArriveIs(ranges, p, Said(ranges, end), ranges.at[next], p.budget - Gone(ranges.all[p.range], state, p.budget), anew);
    }
  }

  lemma ArriveIs<W>(ranges: Ranges<W>, p: Point<W>, end: End<W>, target: nat, left: nat, anew: bool)
    requires p.In(ranges) && IsIn(ranges, end) && end.next in ranges.at && target == ranges.at[end.next]
    requires end.range == p.range && left == p.budget - Gone(ranges.all[p.range], end.state, p.budget) && left >= 1
    requires end.chained == p.chained + Gone(ranges.all[p.range], end.state, p.budget)
    requires !Comes(ranges, target, end.ledger)
    ensures var after := Arrive(ranges, end, target, left, p.spare, anew);
            if exists v <- ranges.all[target].required :: !end.vars.Bound(v) then after == Stops(end)
            else
              && after.GoesTo?
              && IsNext(ranges, p, after.point, end.next, end.state, end.vars, end.world, end.ledger, anew)
  {
    var range := ranges.all[target];
    if Ready(end.vars, range.required) {
      var point := Arrive(ranges, end, target, left, p.spare, anew).point;
      BuiltIs(ranges, end, target, p.spare, anew, point.budget);
    }
  }

  lemma BuiltIs<W>(ranges: Ranges<W>, end: End<W>, target: nat, spare: seq<U64>, anew: bool, budget: U64)
    requires IsIn(ranges, end) && target < |ranges.all|
    ensures var range := ranges.all[target];
            var state := Build(if anew then Zeros(range.slotCount) else Resized(spare, range.slotCount), range, end.vars, budget);
            && |state| == range.slotCount
            && forall x | 0 <= x < |state| ::
                 HasAtStart(if anew then [] else spare, range, end.vars, budget, x, state[x])
  {
    var range := ranges.all[target];
    var under := if anew then Zeros(range.slotCount) else Resized(spare, range.slotCount);
    var state := Build(under, range, end.vars, budget);
    forall x | 0 <= x < |state|
      ensures HasAtStart(if anew then [] else spare, range, end.vars, budget, x, state[x]) {
      BuildHas(under, range, end.vars, budget, x);
      assert Get(under, x) == Get(if anew then [] else spare, x);
    }
  }
}
