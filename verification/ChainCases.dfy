/** Ranges that a chain may have, and runs of it where slots that are used again, and executions that begin again at 0, can
    be told. */
module ChainCases {
  import opened Basics
  import opened ChainSpec
  import opened ChainCounts
  import opened ChainSteps

  // ---------- Ranges that depend on just what they may read ----------

  /** A range with registers that adds 1 to its variable there, and never writes the slot that it would have for it. */
  function Adds<W>(): Range<W> {
    Range(1, 3, Some(0), Some(1), None, [0], [(0, 2)], [0], [Output(0, 2, 64, None)], map[], true,
          (s, r, w) => Ran(0, [1, Get(s, 1), Get(s, 2)], With(r, 0, Added(Get(r, 0), 1)), w, false))
  }

  /** A range that leaves its output unreached, with what was in its slot. */
  function Skips<W>(): Range<W> {
    Range(2, 4, Some(0), Some(1), None, [0, 3], [], [], [Output(0, 2, 64, Some(3))], map[], false,
          (s, r, w) => Ran(0, [1, Get(s, 1), Get(s, 2), 0], r, w, false))
  }

  lemma AddsRespects<W(!new)>()
    ensures Fits(Adds<W>()) && Respects(Adds<W>())
  {
    var range := Adds<W>();
    forall s: seq<U64>, t: seq<U64>, r: seq<U64>, q: seq<U64>, world: W | ReadsAlike(range, s, t, r, q)
      ensures SameOutcome(range, r, q, range.run(s, r, world), range.run(t, q, world)) {
      assert 1 in Reads(range);
    }
  }

  lemma SkipsRespects<W(!new)>()
    ensures Fits(Skips<W>()) && Respects(Skips<W>())
  {
    var range := Skips<W>();
    forall s: seq<U64>, t: seq<U64>, r: seq<U64>, q: seq<U64>, world: W | ReadsAlike(range, s, t, r, q)
      ensures SameOutcome(range, r, q, range.run(s, r, world), range.run(t, q, world)) {
      assert 1 in Reads(range);
    }
  }

  /** A range that reads nothing and writes its output in its slot. */
  function Writes<W>(): Range<W> {
    Range(1, 3, Some(0), Some(1), None, [0], [], [], [Output(0, 2, 64, None)], map[], false,
          (s, r, w) => Ran(0, With(With(s, 0, 1), 2, 7), r, w, false))
  }

  lemma WritesRespects<W(!new)>()
    ensures Fits(Writes<W>()) && Respects(Writes<W>())
  {
    var range := Writes<W>();
    forall s: seq<U64>, t: seq<U64>, r: seq<U64>, q: seq<U64>, world: W | ReadsAlike(range, s, t, r, q)
      ensures SameOutcome(range, r, q, range.run(s, r, world), range.run(t, q, world)) {
      assert 1 in Reads(range);
    }
  }

  // ---------- An output of 8 bits ----------

  /** A range that has 0x107 in the slot of an output of 8 bits, and goes on. */
  function Tells<W>(): Range<W> {
    Range(1, 3, Some(0), Some(1), None, [0], [], [], [Output(0, 2, 8, None)], map[], false,
          (s, r, w) => Ran(1, [1, Get(s, 1), 0x107], r, w, false))
  }

  /** A range that ends at the address that its variable has. */
  function Takes<W>(): Range<W> {
    Range(2, 3, Some(0), Some(1), None, [0], [(0, 2)], [0], [], map[], false,
          (s, r, w) => Ran(Get(s, 2), [0, Get(s, 1), 0], r, w, false))
  }

  function TellsThenTakes<W>(): Ranges<W> { Ranges([Tells(), Takes()], map[0 := 0, 1 := 1], [NONE, NONE]) }

  lemma LowOfNarrow(value: U64)
    requires IsLow(0x107, 8, value)
    ensures value == 7
  {
    assert Power2(8) == 0x100 by {
      assert Power2(4) == 16;
    }
  }

  /** The variable is written, with 7. */
  lemma SaysSeven<W>(state: seq<U64>)
    requires Get(state, 2) == 0x107
    ensures var said := ForNext(Tells<W>(), NoVars(), 1, state); said.Bound(0) && Get(said.registers, 0) == 7
  {
    var range := Tells<W>();
    ForNextHas(range, NoVars(), 1, state, 0);
    var said := ForNext(range, NoVars(), 1, state);
    assert said.Written(0) && IsLow(0x107, 8, Get(said.registers, 0)) by {
      assert range.outputs[0] in range.outputs;
    }
    LowOfNarrow(Get(said.registers, 0));
  }

  /** What a variable of 8 bits holds after that, and what the slot of the next range has: 7. */
  lemma NarrowIsCut<W>(world: W, budget: U64, anew: bool)
    requires budget >= 1
    ensures var ranges := TellsThenTakes<W>();
            var p := Point(0, [0, budget, 0], [], NoVars(), budget, 0, world, true, NewLedger([0, 0]));
            && p.In(ranges) && Step(ranges, p, anew).GoesTo?
            && var q := Step(ranges, p, anew).point;
            && q.range == 1 && q.chained == 1 && Get(q.vars.registers, 0) == 7
            && Get(q.state, 1) == budget - 1 && Get(q.state, 2) == 7
  {
    var ranges := TellsThenTakes<W>();
    var p := Point(0, [0, budget, 0], [], NoVars(), budget, 0, world, true, NewLedger([0, 0]));
    var range, state := ranges.all[0], [1, budget, 0x107];
    assert range.run(p.state, [], world) == Ran(1, state, [], world, false);
    StepIs(ranges, p, anew);
    assert VarsAfter(range, NoVars(), 1, state, [], anew) == NoVars();
    SaysSeven<W>(state);
    var said, q := ForNext(range, NoVars(), 1, state), Step(ranges, p, anew).point;
    assert HasAtStart(if anew then [] else p.spare, ranges.all[1], said, q.budget, 2, q.state[2]);
    assert HasAtStart(if anew then [] else p.spare, ranges.all[1], said, q.budget, 1, q.state[1]);
    assert ranges.all[1].layout[0] in ranges.all[1].layout;
  }

  /** So the run ends at 7. */
  lemma NarrowRunEnds<W>(world: W, budget: U64, anew: bool)
    requires budget >= 1
    ensures var ranges := TellsThenTakes<W>();
            var p := Point(0, [0, budget, 0], [], NoVars(), budget, 0, world, true, NewLedger([0, 0]));
            p.In(ranges) && Run(ranges, p, anew).Ends? && Run(ranges, p, anew).range == 1 && Run(ranges, p, anew).next == 7
  {
    NarrowIsCut(world, budget, anew);
    var ranges := TellsThenTakes<W>();
    var p := Point(0, [0, budget, 0], [], NoVars(), budget, 0, world, true, NewLedger([0, 0]));
    var q := Step(ranges, p, anew).point;
    var state := [0, Get(q.state, 1), 0];
    assert ranges.all[1].run(q.state, q.vars.registers, q.world) == Ran(7, state, q.vars.registers, q.world, false);
    StepIs(ranges, q, anew);
  }

  // ---------- A slot of a variable that isn't bound ----------

  /** A range that goes on to itself while the slot of a variable that it doesn't need has 0, and leaves 1 there. */
  function Looks<W>(): Range<W> {
    Range(1, 3, Some(0), Some(1), None, [0], [(0, 2)], [], [], map[], false,
          (s, r, w) => Ran(0, [if Get(s, 2) == 0 then 1 else 0, Get(s, 1), 1], r, w, false))
  }

  function Alone<W>(range: Range<W>): Ranges<W> { Ranges([range], map[0 := 0], [NONE]) }

  function NoVars(): Vars { Vars([], [], []) }

  /** Where a run of that range is, with a value in the slot. */
  function LooksAt<W>(x: U64, spare: seq<U64>, budget: U64, chained: nat, world: W, first: bool, ledger: Ledger): Point<W> {
    Point(0, [0, budget, x], spare, NoVars(), budget, chained, world, first, ledger)
  }

  lemma LooksOn<W>(p: Point<W>, x: U64, anew: bool)
    requires p == LooksAt(x, p.spare, p.budget, p.chained, p.world, p.first, p.ledger)
    requires p.In(Alone(Looks<W>())) && (p.spare == [] || (|p.spare| == 3 && p.spare[2] == 1))
    ensures var ledger := CountedIn(p.ledger, 0, Executed(p.first, 0));
            var state := [if x == 0 then 1 else 0, p.budget, 1];
            Step(Alone(Looks<W>()), p, anew) ==
            if x == 0 && p.budget >= 1
            then GoesTo(LooksAt(if anew || p.spare == [] then 0 else 1, state, p.budget - 1, p.chained + 1, p.world, false,
                                ledger))
            else Stops(Ends(0, 0, state, NoVars(), p.chained, p.world, ledger))
  {
    var range, ranges := Looks<W>(), Alone(Looks<W>());
    var state := [if x == 0 then 1 else 0, p.budget, 1];
    assert range.run(p.state, p.vars.registers, p.world) == Ran(0, state, [], p.world, false);
    assert Blank(NoVars()) == NoVars();
    var end := EndAfter(ranges, p, anew, 0, state, [], p.world);
    assert end == Ends(0, 0, state, NoVars(), p.chained, p.world, CountedIn(p.ledger, 0, Executed(p.first, 0)));
    if x == 0 && p.budget >= 1 {
      var under := if anew then Zeros(3) else Resized(p.spare, 3);
      LooksBuilt<W>(under, p.budget - 1, under[2]);
    }
  }

  lemma LooksBuilt<W>(under: seq<U64>, budget: U64, x: U64)
    requires |under| == 3 && under[2] == x
    ensures Build(under, Looks<W>(), NoVars(), budget) == [0, budget, x]
  {
    var range := Looks<W>();
    var zeros := With(under, 0, 0);
    assert range.zeroed[1..] == [] && range.layout[1..] == [];
    assert WithZeros(under, range.zeroed) == WithZeros(zeros, range.zeroed[1..]) == zeros;
    assert WithLayout(zeros, range.layout, NoVars()) == WithLayout(zeros, range.layout[1..], NoVars()) == zeros;
  }

  /** With a budget of 3, slots that are used again stop the run at its third range, and slots made anew at its fourth. */
  lemma StaleSlotIsSeen<W>(world: W, ledger: Ledger)
    requires ledger == NewLedger([0])
    ensures var ranges, p := Alone(Looks<W>()), LooksAt(0, [], 3, 0, world, true, ledger);
            && p.In(ranges) && Run(ranges, p, false).Ends? && Run(ranges, p, true).Ends?
            && Run(ranges, p, false).chained == 2 && Run(ranges, p, true).chained == 3
  {
    var ranges, p := Alone(Looks<W>()), LooksAt(0, [], 3, 0, world, true, ledger);
    LooksOn(p, 0, false);
    var p2 := Step(ranges, p, false).point;
    LooksOn(p2, 0, false);
    var p3 := Step(ranges, p2, false).point;
    LooksOn(p3, 1, false);
    assert Run(ranges, p, false) == Run(ranges, p2, false) == Run(ranges, p3, false) == Step(ranges, p3, false).end;
    LooksOn(p, 0, true);
    var q2 := Step(ranges, p, true).point;
    LooksOn(q2, 0, true);
    var q3 := Step(ranges, q2, true).point;
    LooksOn(q3, 0, true);
    var q4 := Step(ranges, q3, true).point;
    LooksOn(q4, 0, true);
    assert Run(ranges, p, true) == Run(ranges, q2, true) == Run(ranges, q3, true) == Run(ranges, q4, true);
    assert Run(ranges, q4, true) == Step(ranges, q4, true).end;
  }

  // ---------- Executions that begin again at 0 ----------

  /** A range that goes on to itself twice, and fails after that. */
  function FailsThird(): Range<int> {
    Range(1, 2, Some(0), Some(1), None, [0], [], [], [], map[], false,
          (s: seq<U64>, r: seq<U64>, w: int) => if w < 2 then Ran(0, [1, Get(s, 1)], r, w + 1, false) else Failed(w))
  }

  function FailsAt(spare: seq<U64>, budget: U64, chained: nat, world: int, first: bool, ledger: Ledger): Point<int> {
    Point(0, [0, budget], spare, NoVars(), budget, chained, world, first, ledger)
  }

  lemma FailsOn(p: Point<int>)
    requires p == FailsAt(p.spare, p.budget, p.chained, p.world, p.first, p.ledger) && p.In(Alone(FailsThird()))
    requires p.budget >= 1
    ensures Step(Alone(FailsThird()), p, false) ==
            if p.world < 2
            then GoesTo(FailsAt([1, p.budget], p.budget - 1, p.chained + 1, p.world + 1, false,
                                CountedIn(p.ledger, 0, Executed(p.first, 0))))
            else Stops(Fails(p.world, p.ledger))
  {
    if p.world < 2 {
      var range, ranges, state := FailsThird(), Alone(FailsThird()), [1, p.budget];
      assert p.state == [0, p.budget] && Get(p.state, 1) == p.budget && p.vars.registers == [];
      assert range.run(p.state, [], p.world) == Ran(0, state, [], p.world + 1, false);
      var under := Resized(p.spare, 2);
      var zeros := With(under, 0, 0);
      assert range.zeroed[1..] == [];
      assert WithZeros(under, range.zeroed) == WithZeros(zeros, range.zeroed[1..]) == zeros;
      assert WithLayout(zeros, range.layout, NoVars()) == zeros && zeros[0] == 0;
      assert Build(under, range, NoVars(), p.budget - 1) == [0, p.budget - 1];
      var end := EndAfter(ranges, p, false, 0, state, [], p.world + 1);
      assert end == Ends(0, 0, state, NoVars(), p.chained, p.world + 1, CountedIn(p.ledger, 0, Executed(p.first, 0)));
    }
  }

  /** What is counted of two ranges of a run, the first of which was counted already. */
  lemma CountedTwice(ledger: Ledger)
    requires ledger == NewLedger([0xFFFF_FFFF_FFFF_FFFF])
    ensures var once := CountedIn(ledger, 0, Executed(true, 0)); once.Shaped() && |once.executions| == 1
    ensures TakenBack(CountedIn(CountedIn(ledger, 0, Executed(true, 0)), 0, Executed(false, 0))) == [0]
  {
    var once := CountedIn(ledger, 0, 0);
    var twice := CountedIn(once, 0, 1);
    assert once.executions == [0xFFFF_FFFF_FFFF_FFFF] && once.executed == [0];
    assert twice.executions == [0] && twice.executed == [1];
  }

  /** A range that was executed 2^64 - 1 times is executed once more, and the run then fails: what is left is 0. */
  lemma ExecutionsAreLost(ledger: Ledger)
    requires ledger == NewLedger([0xFFFF_FFFF_FFFF_FFFF])
    ensures var ranges, p := Alone(FailsThird()), FailsAt([], 3, 0, 0, true, ledger);
            && p.In(ranges) && Run(ranges, p, false).Fails?
            && TakenBack(Run(ranges, p, false).ledger) == [0] && p.ledger.executions == [0xFFFF_FFFF_FFFF_FFFF]
  {
    var ranges, p := Alone(FailsThird()), FailsAt([], 3, 0, 0, true, ledger);
    FailsOn(p);
    var p2 := Step(ranges, p, false).point;
    FailsOn(p2);
    var p3 := Step(ranges, p2, false).point;
    FailsOn(p3);
    assert Run(ranges, p, false) == Run(ranges, p2, false) == Run(ranges, p3, false) == Fails(2, p3.ledger);
    CountedTwice(ledger);
  }
}
