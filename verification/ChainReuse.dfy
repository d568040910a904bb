/** Slots that other ranges left and registers of variables that are not bound (native/bap_jit.cpp:2095-2104): a run of a
    chain that uses them again comes to the same as one that makes them anew, where each range depends on just what it may
    read. */
module ChainReuse {
  import opened Basics
  import opened ChainSpec

  // ---------- A state over what another range left ----------

  /** Whether variables are the same but for the registers of those that aren't bound. */
  ghost predicate VarsAlike(v: Vars, w: Vars) {
    && v.Shaped() && w.Shaped() && v.bound == w.bound && v.dirty == w.dirty
    && forall x: nat | v.Bound(x) :: Get(v.registers, x) == Get(w.registers, x)
  }

  lemma BlankIsAlike(v: Vars, w: Vars)
    requires VarsAlike(v, w)
    ensures VarsAlike(v, Blank(w))
  {
  }

  lemma {:induction false} ZerosAgree(s: seq<U64>, t: seq<U64>, slots: seq<nat>, x: nat)
    requires |s| == |t| && (Get(s, x) == Get(t, x) || x in slots)
    ensures Get(WithZeros(s, slots), x) == Get(WithZeros(t, slots), x)
    decreases |slots|
  {
    if slots != [] {
      ZerosAgree(With(s, slots[0], 0), With(t, slots[0], 0), slots[1..], x);
    }
  }

  lemma {:induction false} LayoutAgrees(s: seq<U64>, t: seq<U64>, layout: seq<(nat, nat)>, v: Vars, w: Vars, x: nat)
    requires VarsAlike(v, w) && |s| == |t|
    requires Get(s, x) == Get(t, x) || exists pair <- layout :: pair.1 == x && v.Bound(pair.0)
    ensures Get(WithLayout(s, layout, v), x) == Get(WithLayout(t, layout, w), x)
    decreases |layout|
  {
    if layout != [] {
      var (variable, slot) := layout[0];
      var s1 := if v.Bound(variable) then With(s, slot, v.registers[variable]) else s;
      var t1 := if w.Bound(variable) then With(t, slot, w.registers[variable]) else t;
      assert v.Bound(variable) ==> Get(v.registers, variable) == Get(w.registers, variable);
      LayoutAgrees(s1, t1, layout[1..], v, w, x);
    }
  }

  /** A state made over anything has what the range may read as one that is made anew, once what it needs is bound. */
  lemma BuildAgrees<W>(s: seq<U64>, t: seq<U64>, range: Range<W>, v: Vars, w: Vars, budget: U64)
    requires VarsAlike(v, w) && range.slotCount <= |s| == |t| && Ready(v, range.required)
    ensures ReadsAlike(range, Build(s, range, v, budget), Build(t, range, w, budget), v.registers, w.registers)
  {
    var zs, zt := WithZeros(s, range.zeroed), WithZeros(t, range.zeroed);
    var ls := if range.direct then zs else WithLayout(zs, range.layout, v);
    var lt := if range.direct then zt else WithLayout(zt, range.layout, w);
    forall x | x in Reads(range) ensures Get(Build(s, range, v, budget), x) == Get(Build(t, range, w, budget), x) {
      if x in range.zeroed {
        ZerosAgree(s, t, range.zeroed, x);
      }
      if !range.direct && (Get(zs, x) == Get(zt, x) || exists pair <- range.layout :: pair.1 == x && v.Bound(pair.0)) {
        LayoutAgrees(zs, zt, range.layout, v, w, x);
      }
      assert Get(ls, x) == Get(lt, x) || range.budgetSlot == Some(x) || range.observed == Some(x);
    }
  }

  lemma {:induction false} LayoutLeaves(s: seq<U64>, layout: seq<(nat, nat)>, vars: Vars, x: nat)
    requires vars.Shaped() && forall pair <- layout :: pair.1 == x ==> !vars.Bound(pair.0)
    ensures Get(WithLayout(s, layout, vars), x) == Get(s, x)
    decreases |layout|
  {
    if layout != [] {
      var (v, slot) := layout[0];
      assert (v, slot) in layout;
      LayoutLeaves(if vars.Bound(v) then With(s, slot, vars.registers[v]) else s, layout[1..], vars, x);
    }
  }

  lemma {:induction false} ZerosLeave(s: seq<U64>, slots: seq<nat>, x: nat)
    requires x !in slots
    ensures Get(WithZeros(s, slots), x) == Get(s, x)
    decreases |slots|
  {
    if slots != [] {
      ZerosLeave(With(s, slots[0], 0), slots[1..], x);
    }
  }

  /** A slot of the layout that is nothing else has what another range left there just if none of its variables is bound:
      a range may read it only if it needs one of them. */
  lemma StaleSlot<W>(s: seq<U64>, t: seq<U64>, range: Range<W>, vars: Vars, budget: U64, x: nat)
    requires vars.Shaped() && |s| == |t| && x < |s| && s[x] != t[x] && !range.direct
    requires x !in range.zeroed && range.budgetSlot != Some(x) && range.observed != Some(x)
    ensures Get(Build(s, range, vars, budget), x) == Get(Build(t, range, vars, budget), x)
            <==> exists pair <- range.layout :: pair.1 == x && vars.Bound(pair.0)
  {
    var zs, zt := WithZeros(s, range.zeroed), WithZeros(t, range.zeroed);
    ZerosLeave(s, range.zeroed, x);
    ZerosLeave(t, range.zeroed, x);
    if exists pair <- range.layout :: pair.1 == x && vars.Bound(pair.0) {
      LayoutAgrees(zs, zt, range.layout, vars, vars, x);
    } else {
      LayoutLeaves(zs, range.layout, vars, x);
      LayoutLeaves(zt, range.layout, vars, x);
    }
  }

  // ---------- Slots that are used again ----------

  /** Whether variables are the same as far as they are read once outputs are said: those bound, and those written in
      their registers. */
  ghost predicate SoonAlike(v: Vars, w: Vars, outputs: seq<Output>, state: seq<U64>, copy: bool) {
    && v.Shaped() && w.Shaped() && v.bound == w.bound && v.dirty == w.dirty
    && forall x: nat {:trigger Get(v.registers, x)} {:trigger Get(w.registers, x)} |
         v.Bound(x) || (!copy && Says(outputs, state, x)) :: Get(v.registers, x) == Get(w.registers, x)
  }

  lemma SayOneAlike(v: Vars, w: Vars, outputs: seq<Output>, s: seq<U64>, t: seq<U64>, copy: bool)
    requires outputs != [] && SoonAlike(v, w, outputs, s, copy) && TellsAlike(outputs[0], s, t, copy)
    ensures SoonAlike(SayOne(v, outputs[0], s, copy), SayOne(w, outputs[0], t, copy), outputs[1..], s, copy)
  {
    var o := outputs[0];
    var a, b := SayOne(v, o, s, copy), SayOne(w, o, t, copy);
    var e, f := Ensure(v, o.variable), Ensure(w, o.variable);
    assert e.bound == f.bound;
    forall x: nat | a.Bound(x) || (!copy && Says(outputs[1..], s, x)) ensures Get(a.registers, x) == Get(b.registers, x) {
      SayOneAt(v, o, s, copy, x);
      assert Get(e.registers, x) == Get(v.registers, x) && Get(f.registers, x) == Get(w.registers, x);
      if Says(outputs[1..], s, x) {
        assert Says(outputs, s, x);
      }
      if x == o.variable && Reached(o, s) {
        assert o in outputs && Says(outputs, s, x);
      }
    }
  }

  lemma {:induction false} SayAlike(v: Vars, w: Vars, outputs: seq<Output>, s: seq<U64>, t: seq<U64>, copy: bool)
    requires SoonAlike(v, w, outputs, s, copy) && AllToldAlike(outputs, s, t, copy)
    ensures VarsAlike(Say(v, outputs, s, copy), Say(w, outputs, t, copy))
    decreases |outputs|
  {
    if outputs != [] {
      assert outputs[0] in outputs;
      SayOneAlike(v, w, outputs, s, t, copy);
      SayAlike(SayOne(v, outputs[0], s, copy), SayOne(w, outputs[0], t, copy), outputs[1..], s, t, copy);
    }
  }

  lemma AfterAlike<W>(range: Range<W>, v: Vars, w: Vars, next: U64, s: seq<U64>, t: seq<U64>, r: seq<U64>, q: seq<U64>)
    requires VarsAlike(v, w) && Told(range, next, s, t)
    requires range.direct ==> LeftAlike(OutputsAt(range, next), s, v.registers, w.registers, r, q)
    ensures VarsAlike(AfterRange(range, v, next, s, r), AfterRange(range, w, next, t, q))
  {
    if range.direct {
      var outputs, n := OutputsAt(range, next), |v.registers|;
      var a, b := v.(registers := Resized(r, n)), w.(registers := Resized(q, n));
      forall x: nat | a.Bound(x) || Says(outputs, s, x) ensures Get(a.registers, x) == Get(b.registers, x) {
        if x < n {
          assert v.Bound(x) ==> Get(v.registers, x) == Get(w.registers, x);
          assert Get(r, x) == Get(q, x);
        }
      }
      SayAlike(a, b, outputs, s, t, false);
    }
  }

  lemma ForNextAlike<W>(range: Range<W>, v: Vars, w: Vars, next: U64, s: seq<U64>, t: seq<U64>)
    requires VarsAlike(v, w) && Told(range, next, s, t)
    ensures VarsAlike(ForNext(range, v, next, s), ForNext(range, w, next, t))
  {
    if !range.direct {
      SayAlike(v, w, OutputsAt(range, next), s, t, true);
    }
  }

  /** Whether a run that uses slots again has got to where one that makes them anew has. */
  ghost predicate Like<W>(ranges: Ranges<W>, p: Point<W>, q: Point<W>) {
    && p.In(ranges) && q.In(ranges) && VarsAlike(p.vars, q.vars)
    && q == Point(p.range, q.state, q.spare, q.vars, p.budget, p.chained, p.world, p.first, p.ledger)
    && ReadsAlike(ranges.all[p.range], p.state, q.state, p.vars.registers, q.vars.registers)
  }

  /** Whether it has come to the same end: slots are told the same, and variables are, where they are bound. */
  ghost predicate SameEnd<W>(ranges: Ranges<W>, a: End<W>, b: End<W>) {
    match a
    case Fails(_, _) => b == a
    case Ends(range, next, state, vars, chained, world, ledger) =>
      && b.Ends? && b == Ends(range, next, b.state, b.vars, chained, world, ledger)
      && range < |ranges.all| && VarsAlike(vars, b.vars) && Told(ranges.all[range], next, state, b.state)
  }

  ghost predicate SameAfter<W>(ranges: Ranges<W>, a: After<W>, b: After<W>) {
    match a
    case GoesTo(point) => b.GoesTo? && Like(ranges, point, b.point)
    case Stops(end) => b.Stops? && SameEnd(ranges, end, b.end)
  }

  lemma ArriveAlike<W>(ranges: Ranges<W>, a: End<W>, b: End<W>, target: nat, left: U64, spare: seq<U64>, other: seq<U64>)
    requires IsIn(ranges, a) && IsIn(ranges, b) && SameEnd(ranges, a, b) && target < |ranges.all| && left >= 1
    ensures SameAfter(ranges, Arrive(ranges, a, target, left, spare, false), Arrive(ranges, b, target, left, other, true))
  {
    var range := ranges.all[target];
    if Ready(a.vars, range.required) {
      var budget := NextBudget(left, ranges.optimizeAt[target], a.ledger.executions[target]);
      BuildAgrees(Resized(spare, range.slotCount), Zeros(range.slotCount), range, a.vars, b.vars, budget);
    }
  }

  lemma EnteredAlike<W>(range: Range<W>, next: U64, s: seq<U64>, t: seq<U64>, budget: U64, leanRan: bool)
    requires Told(range, next, s, t)
    ensures Entered(range, s, budget) == Entered(range, t, budget)
    ensures GoesOn(range, s, budget, leanRan) == GoesOn(range, t, budget, leanRan)
  {
  }

  lemma LeadsAlike<W>(ranges: Ranges<W>, a: End<W>, b: End<W>, budget: U64, leanRan: bool)
    requires IsIn(ranges, a) && IsIn(ranges, b) && SameEnd(ranges, a, b)
    ensures Leads(ranges, a, budget, leanRan) == Leads(ranges, b, budget, leanRan)
    ensures Entered(ranges.all[a.range], a.state, budget) == Entered(ranges.all[a.range], b.state, budget)
  {
    EnteredAlike(ranges.all[a.range], a.next, a.state, b.state, budget, leanRan);
  }

  lemma SaidAlike<W>(ranges: Ranges<W>, a: End<W>, b: End<W>)
    requires IsIn(ranges, a) && IsIn(ranges, b) && SameEnd(ranges, a, b)
    ensures SameEnd(ranges, Said(ranges, a), Said(ranges, b))
  {
    ForNextAlike(ranges.all[a.range], a.vars, b.vars, a.next, a.state, b.state);
  }

  lemma OnwardAlike<W>(
      ranges: Ranges<W>, a: End<W>, b: End<W>, budget: U64, leanRan: bool, spare: seq<U64>, other: seq<U64>)
    requires IsIn(ranges, a) && IsIn(ranges, b) && SameEnd(ranges, a, b)
    ensures SameAfter(ranges, Onward(ranges, a, budget, leanRan, spare, false), Onward(ranges, b, budget, leanRan, other, true))
  {
    LeadsAlike(ranges, a, b, budget, leanRan);
    if Leads(ranges, a, budget, leanRan) {
      var target, left := ranges.at[a.next], budget - Entered(ranges.all[a.range], a.state, budget);
      OnwardIs(ranges, a, budget, leanRan, spare, false, target, left);
      OnwardIs(ranges, b, budget, leanRan, other, true, target, left);
      SaidArriveAlike(ranges, a, b, target, left, spare, other);
    } else {
      assert Onward(ranges, a, budget, leanRan, spare, false) == Stops(a);
      assert Onward(ranges, b, budget, leanRan, other, true) == Stops(b);
    }
  }

  /** Where a run that leads on arrives. */
  lemma OnwardIs<W>(
      ranges: Ranges<W>, end: End<W>, budget: U64, leanRan: bool, spare: seq<U64>, anew: bool, target: nat, left: U64)
    requires IsIn(ranges, end) && Leads(ranges, end, budget, leanRan)
    requires target == ranges.at[end.next] && left == budget - Entered(ranges.all[end.range], end.state, budget)
    ensures target < |ranges.all| && left >= 1
    ensures Onward(ranges, end, budget, leanRan, spare, anew) == Arrive(ranges, Said(ranges, end), target, left, spare, anew)
  {
  }

  lemma SaidArriveAlike<W>(
      ranges: Ranges<W>, a: End<W>, b: End<W>, target: nat, left: U64, spare: seq<U64>, other: seq<U64>)
    requires IsIn(ranges, a) && IsIn(ranges, b) && SameEnd(ranges, a, b) && target < |ranges.all| && left >= 1
    ensures SameAfter(ranges, Arrive(ranges, Said(ranges, a), target, left, spare, false),
                      Arrive(ranges, Said(ranges, b), target, left, other, true))
  {
    SaidAlike(ranges, a, b);
    ArriveAlike(ranges, Said(ranges, a), Said(ranges, b), target, left, spare, other);
  }

  lemma EndsAlike<W>(
      ranges: Ranges<W>, p: Point<W>, q: Point<W>, next: U64, s: seq<U64>, t: seq<U64>, r: seq<U64>, other: seq<U64>, world: W)
    requires Like(ranges, p, q) && Told(ranges.all[p.range], next, s, t)
    requires ranges.all[p.range].direct ==>
               LeftAlike(OutputsAt(ranges.all[p.range], next), s, p.vars.registers, q.vars.registers, r, other)
    ensures SameEnd(ranges, EndAfter(ranges, p, false, next, s, r, world), EndAfter(ranges, q, true, next, t, other, world))
  {
    var range := ranges.all[p.range];
    AfterAlike(range, p.vars, q.vars, next, s, t, r, other);
    BlankIsAlike(AfterRange(range, p.vars, next, s, r), AfterRange(range, q.vars, next, t, other));
    EnteredAlike(range, next, s, t, p.budget, false);
  }

  lemma StepOnAlike<W>(
      ranges: Ranges<W>, p: Point<W>, q: Point<W>, next: U64, s: seq<U64>, t: seq<U64>, r: seq<U64>, other: seq<U64>, world: W,
      leanRan: bool)
    requires Like(ranges, p, q) && Told(ranges.all[p.range], next, s, t)
    requires ranges.all[p.range].direct ==>
               LeftAlike(OutputsAt(ranges.all[p.range], next), s, p.vars.registers, q.vars.registers, r, other)
    ensures SameAfter(ranges, StepOn(ranges, p, false, next, s, r, world, leanRan),
                      StepOn(ranges, q, true, next, t, other, world, leanRan))
  {
    EndsAlike(ranges, p, q, next, s, t, r, other, world);
    OnwardAlike(ranges, EndAfter(ranges, p, false, next, s, r, world), EndAfter(ranges, q, true, next, t, other, world),
                p.budget, leanRan, p.spare, q.spare);
  }

  /** A range does the same from slots and registers that other ranges left as from those that are made anew. */
  lemma StepAgrees<W(!new)>(ranges: Ranges<W>, p: Point<W>, q: Point<W>)
    requires Like(ranges, p, q) && Respects(ranges.all[p.range])
    ensures SameAfter(ranges, Step(ranges, p, false), Step(ranges, q, true))
  {
    var range := ranges.all[p.range];
    var a, b := range.run(p.state, p.vars.registers, p.world), range.run(q.state, q.vars.registers, q.world);
    assert SameOutcome(range, p.vars.registers, q.vars.registers, a, b);
    if a.Ran? {
      StepOnAlike(ranges, p, q, a.next, a.state, b.state, a.registers, b.registers, a.world, a.leanRan);
    }
  }

  /** Where every range depends on just what it may read, a run that uses slots again and leaves registers as they are
      comes to the same as one where each range has slots and registers made anew of the variables that are bound. */
  lemma {:induction false} ReuseIsInvisible<W(!new)>(ranges: Ranges<W>, p: Point<W>, q: Point<W>)
    requires Like(ranges, p, q) && AllRespect(ranges)
    ensures SameEnd(ranges, Run(ranges, p, false), Run(ranges, q, true))
    decreases p.budget
  {
    StepAgrees(ranges, p, q);
    var a, b := Step(ranges, p, false), Step(ranges, q, true);
    if a.GoesTo? {
      ReuseIsInvisible(ranges, a.point, b.point);
    }
  }
}
