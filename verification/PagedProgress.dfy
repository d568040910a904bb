/** What a thread that races on a guest address space comes to when it runs on (native/paged_memory.h:141-219): its access
    ends, in a number of steps that is bounded, and makes no page but one that it needs. */
module PagedProgress {
  import opened Basics
  import opened PageTable
  import opened PagedRace

  /** Whether bytes are those of the word of an address. */
  ghost predicate HasWord(s: State, a: Address, bytes: seq<Byte>) {
    |bytes| == WORD_SIZE && forall k | 0 <= k < WORD_SIZE :: bytes[k] == ByteAt(s, WordBase(a) + k)
  }

  lemma RetryIs(s: State, t: nat, op: Op, page: nat, expected: seq<Byte>, fails: bool)
    requires Sound(s) && t < |s.threads| && s.threads[t] == Retry(op, page, expected)
    ensures AtPage(s, op, page) && op.Store? && WithinWord(op) && |expected| == WORD_SIZE
    ensures Step(s, t, Act(fails)) == ExchangeWord(s, t, op, page, expected, fails)
  {
    assert Fits(s, t);
  }

  lemma WordHas(s: State, op: Op, page: nat)
    requires AtPage(s, op, page)
    ensures HasWord(s, op.address, Word(s.pages[page], op.address))
  {
    PagedRace.WordIsThere(s, op.address, page);
  }

  lemma OneWord(s: State, a: Address, x: seq<Byte>, y: seq<Byte>)
    requires HasWord(s, a, x) && HasWord(s, a, y)
    ensures x == y
  {
  }

  /** The exchange of a word goes through where the word is what it is expected to be and chance lets it. */
  lemma ExchangeGoesThrough(s: State, t: nat, op: Op, page: nat, expected: seq<Byte>)
    requires Sound(s) && t < |s.threads| && s.threads[t] == Retry(op, page, expected) && op.Store?
    requires HasWord(s, op.address, expected)
    ensures Step(s, t, Act(false)).threads[t] == Idle
    ensures Step(s, t, Act(false)).history == s.history + [Stored(t, op.address, op.bytes)]
  {
    RetryIs(s, t, op, page, expected, false);
    WordHas(s, op, page);
    OneWord(s, op.address, expected, Word(s.pages[page], op.address));
  }

  /** And otherwise the thread goes on with the word as it is. */
  lemma ExchangeLooksAgain(s: State, t: nat, op: Op, page: nat, expected: seq<Byte>, fails: bool)
    requires Sound(s) && t < |s.threads| && s.threads[t] == Retry(op, page, expected)
    requires fails || !HasWord(s, op.address, expected)
    ensures var next := Step(s, t, Act(fails)).threads[t];
            next.Retry? && next.op == op && next.page == page && HasWord(s, op.address, next.expected)
  {
    RetryIs(s, t, op, page, expected, fails);
    WordHas(s, op, page);
  }

  /** How many more steps a thread has at most, if no other takes one. */
  ghost function Left(s: State, t: nat): nat
    requires Sound(s) && t < |s.threads|
  {
    assert Fits(s, t);
    match s.threads[t]
    case Idle => 0
    case Walk(_, _, level) => 3 * (LEVELS - level) + 4
    case Take(_, _, level) => 3 * (LEVELS - level) + 3
    case Exchange(_, _, level, _) => 3 * (LEVELS - level) + 2
    case GiveBack(_, _, _) => 4
    case AtWord(_, _) => 3
    case Retry(op, page, expected) => if Word(s.pages[page], op.address) == expected then 1 else 2
  }

  lemma StepNears(s: State, t: nat)
    requires Sound(s) && t < |s.threads| && !s.threads[t].Idle?
    ensures Sound(Step(s, t, Act(false))) && |Step(s, t, Act(false)).threads| == |s.threads|
    ensures Left(Step(s, t, Act(false)), t) < Left(s, t)
  {
    StepKeeps(s, t, Act(false));
    SameThreads(s, t, Act(false));
    if s.threads[t].AtWord? || s.threads[t].Retry? {
      FewerAtWord(s, Step(s, t, Act(false)), t);
    } else {
      FewerAbove(s, Step(s, t, Act(false)), t);
    }
  }

  lemma FewerAbove(s: State, next: State, t: nat)
    requires Sound(s) && t < |s.threads| && !s.threads[t].Idle? && !s.threads[t].AtWord? && !s.threads[t].Retry?
    requires next == Step(s, t, Act(false)) && Sound(next) && t < |next.threads|
    ensures Left(next, t) < Left(s, t)
  {
    assert Fits(s, t);
  }

  lemma FewerAtWord(s: State, next: State, t: nat)
    requires Sound(s) && t < |s.threads| && (s.threads[t].AtWord? || s.threads[t].Retry?)
    requires next == Step(s, t, Act(false)) && Sound(next) && t < |next.threads|
    ensures Left(next, t) < Left(s, t)
  {
    assert Fits(s, t);
  }

  /** A state after so many steps of one thread, where no exchange fails for nothing. */
  ghost function Alone(s: State, t: nat, steps: nat): (next: State)
    requires Sound(s) && t < |s.threads|
    ensures Sound(next) && |next.threads| == |s.threads|
    decreases steps
  {
    if steps == 0 then s
    else
      StepKeeps(s, t, Act(false));
      SameThreads(s, t, Act(false));
      Alone(Step(s, t, Act(false)), t, steps - 1)
  }

  /** Whether an access has ended, from a state: with its event, which is of the memory as it was then; or, if it was to
      look, with the page that it was to make. */
  ghost predicate HasEnded(s: State, end: State, t: nat, op: Op) {
    && |end.threads| == |s.threads| && t < |s.threads| && end.threads[t].Idle?
    && if op.Look? then
         && end.history == s.history && (op.make ==> Find(end.entries, op.address).Some?)
         && forall a: Address :: ByteAt(end, a) == ByteAt(s, a)
       else
         && |end.history| == |s.history| + 1 && IsOf(op, t, end.history[|s.history|])
         && Happens(s, end, end.history[|s.history|])
  }

  lemma LookFinds(s: State, t: nat, op: Op)
    requires Sound(s) && t < |s.threads| && !s.threads[t].Idle? && s.threads[t].op == op && op.Look? && op.make
    ensures var next := Step(s, t, Act(false));
            t < |next.threads| && next.threads[t].Idle? ==> Find(next.entries, op.address).Some?
  {
    assert Fits(s, t);
  }

  /** What happens from a state that reads as an earlier one does from that. */
  lemma HappensFrom(s: State, before: State, end: State, event: Event)
    requires Happens(before, end, event) && before.history == s.history
    requires forall a: Address :: ByteAt(before, a) == ByteAt(s, a)
    ensures Happens(s, end, event)
  {
    if event.Loaded? {
      forall k | 0 <= k < |event.bytes| ensures event.bytes[k] == ByteAt(s, event.address + k) {}
      forall a: Address ensures ByteAt(end, a) == ByteAt(s, a) {}
    } else {
      forall a: Address
        ensures ByteAt(end, a) ==
                if event.address <= a < event.address + |event.bytes| then event.bytes[a - event.address] else ByteAt(s, a) {
        assert ByteAt(before, a) == ByteAt(s, a);
      }
    }
  }

  /** A thread that runs on alone comes to the end of its access, in no more steps than it has left. */
  lemma {:induction false} EndsAlone(s: State, t: nat) returns (steps: nat)
    requires Sound(s) && t < |s.threads| && !s.threads[t].Idle?
    ensures steps <= Left(s, t) && HasEnded(s, Alone(s, t, steps), t, s.threads[t].op)
    decreases Left(s, t)
  {
    var op, next := s.threads[t].op, Step(s, t, Act(false));
    StepNears(s, t);
    StepTakesEffect(s, t, Act(false));
    if next.threads[t].Idle? {
      if op.Look? && op.make {
        LookFinds(s, t, op);
      }
      steps := 1;
      assert Alone(s, t, 1) == Alone(next, t, 0) == next;
    } else {
      steps := EndsAlone(next, t);
      var end := Alone(next, t, steps);
      if !op.Look? {
        HappensFrom(s, next, end, end.history[|s.history|]);
      }
      steps := steps + 1;
      assert Alone(s, t, steps) == end;
    }
  }

  /** Every access that a thread begins ends within 16 more steps of it, if no other thread takes one: with what a store
      has in the memory, or what a load loaded of it, or the page that is looked for. */
  lemma AccessEnds(s: State, t: nat, op: Op) returns (steps: nat)
    requires Sound(s) && t < |s.threads| && s.threads[t].Idle? && WithinWord(op)
    ensures Sound(Step(s, t, Begin(op))) && |Step(s, t, Begin(op)).threads| == |s.threads|
    ensures steps <= 16 && HasEnded(s, Alone(Step(s, t, Begin(op)), t, steps), t, op)
  {
    StepKeeps(s, t, Begin(op));
    SameThreads(s, t, Begin(op));
    var begun := Step(s, t, Begin(op));
    assert begun.threads[t].op == op && forall a: Address :: ByteAt(begun, a) == ByteAt(s, a);
    steps := EndsAlone(begun, t);
    var end := Alone(begun, t, steps);
    if !op.Look? {
      HappensFrom(s, begun, end, end.history[|s.history|]);
    }
  }

  // ---------- What is made ----------

  /** Whether an access needs a page: to store what isn't zeros, or where it is to be made for an instruction. */
  ghost predicate Needs(op: Op) {
    match op
    case Store(_, bytes) => exists b <- bytes :: b != 0
    case Load(_) => false
    case Look(_, make) => make
  }

  lemma MakesIsNeeds(op: Op)
    ensures Makes(op) <==> Needs(op)
  {
    if op.Store? {
      forall i | 0 <= i < |op.bytes| ensures op.bytes[i] in op.bytes {}
    }
  }

  /** A step changes the table, or has the system give a page, only for an access that needs one, and for a page only
      where none was given back. */
  lemma MakesOnlyNeeded(s: State, t: nat, choice: Choice)
    requires Sound(s) && t < |s.threads| && IsChoice(choice)
    ensures var next := Step(s, t, choice);
            && (next.entries != s.entries || |next.pages| != |s.pages| || next.unused != s.unused ==>
                  !s.threads[t].Idle? && Needs(s.threads[t].op))
            && (|next.pages| != |s.pages| ==> s.unused == [])
  {
    assert Fits(s, t);
    match s.threads[t]
    case Take(op, _, _) => MakesIsNeeds(op);
    case Exchange(op, _, _, _) => MakesIsNeeds(op);
    case GiveBack(op, _, _) => MakesIsNeeds(op);
    case _ =>
  }
}
