/** What the accesses and code sites of a run come to, with no cache, no page at hand and no access but a byte at a time:
    what obligations 2, 3, 4 and 16 of Bap/Jit.lean promise of a run. */
module RunSpec {
  import opened Basics
  import opened PageTable
  import opened Bytes
  import opened Endian
  import opened StoreLog
  import opened MemoryFilter

  /** What the Lean code of an observer comes to: whether it threw, whether it asked to stop, what it wrote to the memory,
      and the ranges that are quiet after it. */
  datatype Reply = Reply(failed: bool, stop: bool, addresses: seq<Address>, values: seq<Byte>, ranges: seq<Range>)

  /** A call of an observer, with the memory that it could see. That of the memory observer is told with the last code
      site that the run passed, if it passed any. */
  datatype Call =
    | CodeCall(pc: Address, memory: Memory)
    | MemoryCall(site: Option<Address>, write: bool, address: Address, size: nat, value: nat, memory: Memory)

  /** Who observes a run, whether it has a filter, whether a site would only set the pc, and what each call of an observer
      comes to, in turn: any replies at all, so that observers may go by whatever they saw. */
  datatype Setting = Setting(observesMemory: bool, observesCode: bool, filtered: bool, quietSites: bool, replies: nat -> Reply)

  ghost predicate Fair(setting: Setting) {
    forall n: nat ::
      |setting.replies(n).addresses| == |setting.replies(n).values| && InOrder(setting.replies(n).ranges)
  }

  /** A run between two of its operations: `dropped` says that the last site that it passed waited, and does no more. */
  datatype Run = Run(
    memory: Memory, written: Written, failed: bool, leanRan: bool, pending: Option<Address>, ranges: seq<Range>,
    lastSite: Option<Address>, dropped: bool, calls: seq<Call>)

  ghost function Start(memory: Memory, ranges: seq<Range>): Run {
    Run(memory, map[], false, false, None, ranges, None, false, [])
  }

  /** Lean code runs. */
  ghost function Observe(setting: Setting, run: Run, call: Call): Run
    requires Fair(setting)
  {
    var reply := setting.replies(|run.calls|);
    run.(calls := run.calls + [call], ranges := reply.ranges, failed := reply.failed,
         memory := WritePairs(run.memory, reply.addresses, reply.values))
  }

  ghost function CallCode(setting: Setting, run: Run, pc: Address): Run
    requires Fair(setting)
  {
    Observe(setting, run, CodeCall(pc, run.memory))
  }

  /** Whether the last call of a run asked it to stop, or threw. */
  ghost predicate Stops(setting: Setting, run: Run)
    requires |run.calls| > 0
  {
    run.failed || setting.replies(|run.calls| - 1).stop
  }

  /** The code observer is told of a site that waited, and the run fails if that would have stopped it. */
  ghost function Deliver(setting: Setting, run: Run): Run
    requires Fair(setting)
  {
    match run.pending
    case None => run
    case Some(pc) =>
      var told := CallCode(setting, run.(pending := None, leanRan := true), pc);
      told.(failed := Stops(setting, told))
  }

  /** An access, before it is made: its observer, unless it is quiet. */
  ghost function Notify(setting: Setting, run: Run, write: bool, a: Address, size: nat, value: nat): Run
    requires Fair(setting)
  {
    if !setting.observesMemory || run.failed then run
    else if setting.filtered && Quiet(run.ranges, a, size, write) then run
    else
      var told := Deliver(setting, run);
      if told.failed then told
      else Observe(setting, told.(leanRan := true), MemoryCall(told.lastSite, write, a, size, value, told.memory))
  }

  ghost function Load(setting: Setting, run: Run, a: Address, size: nat, big: bool): (Run, nat)
    requires Fair(setting)
  {
    var told := Notify(setting, run, false, a, size, 0);
    (told, if told.failed then 0 else ValueOf(LoadBytes(told.memory, a, size), big))
  }

  ghost function Store(setting: Setting, run: Run, a: Address, size: nat, big: bool, value: nat): Run
    requires Fair(setting)
  {
    PutBytes(Notify(setting, run, true, a, size, value), a, size, big, value)
  }

  /** The bytes of a store, which has no effect any more once the run has failed. */
  ghost function PutBytes(run: Run, a: Address, size: nat, big: bool, value: nat): Run {
    if run.failed then run
    else
      var bytes := BytesOf(value, size, big);
      run.(memory := StoreBytes(run.memory, a, bytes), written := LogBytes(run.written, a, bytes))
  }

  /** A code site, and whether the run stops there. */
  ghost function Site(setting: Setting, run: Run, pc: Address): (Run, bool)
    requires Fair(setting)
  {
    var passed := run.(lastSite := Some(pc), dropped := false);
    if run.failed then (run, true)
    else if !setting.observesCode then (passed, false)
    else if setting.quietSites && !run.leanRan then (passed.(pending := Some(pc)), false)
    else
      var told := CallCode(setting, passed, pc);
      (told, Stops(setting, told))
  }

  /** The start of the next range of a chain, and whether the run stops before it: a site that waits is not told any
      more. */
  ghost function NextRange(run: Run): (Run, bool) {
    if run.failed || run.leanRan then (run, true)
    else (run.(pending := None, dropped := run.dropped || run.pending.Some?), false)
  }

  // ---------- Whole runs ----------

  datatype Operation =
    | LoadOp(address: Address, size: nat, big: bool)
    | StoreOp(address: Address, size: nat, big: bool, value: nat)
    | SiteOp(pc: Address)
    | RangeOp

  /** A run after an operation, and whether it stops there. */
  ghost function Apply(setting: Setting, run: Run, op: Operation): (Run, bool)
    requires Fair(setting)
  {
    match op
    case LoadOp(a, size, big) => (Load(setting, run, a, size, big).0, false)
    case StoreOp(a, size, big, value) => (Store(setting, run, a, size, big, value), false)
    case SiteOp(pc) => Site(setting, run, pc)
    case RangeOp => NextRange(run)
  }

  /** A run after some operations, or those before it stops. */
  ghost function Execute(setting: Setting, run: Run, ops: seq<Operation>): Run
    requires Fair(setting)
    decreases |ops|
  {
    if ops == [] then run
    else
      var (next, stops) := Apply(setting, run, ops[0]);
      if stops then next else Execute(setting, next, ops[1..])
  }

  ghost function LoadedBy(setting: Setting, run: Run, op: Operation): seq<nat>
    requires Fair(setting)
  {
    if op.LoadOp? then [Load(setting, run, op.address, op.size, op.big).1] else []
  }

  /** What the loads of a run loaded. */
  ghost function Loads(setting: Setting, run: Run, ops: seq<Operation>): seq<nat>
    requires Fair(setting)
    decreases |ops|
  {
    if ops == [] then []
    else
      var (next, stops) := Apply(setting, run, ops[0]);
      LoadedBy(setting, run, ops[0]) + if stops then [] else Loads(setting, next, ops[1..])
  }

  /** Once a run has failed, nothing of it takes effect any more: not in the memory, nor in what it says it wrote, and no
      observer is called. */
  lemma {:induction false} FailedRunsDoNothing(setting: Setting, run: Run, ops: seq<Operation>)
    requires Fair(setting) && run.failed
    ensures Execute(setting, run, ops) == run
    decreases |ops|
  {
    if ops != [] && (ops[0].LoadOp? || ops[0].StoreOp?) {
      FailedRunsDoNothing(setting, run, ops[1..]);
    }
  }

  // ---------- What a run says that it wrote ----------

  /** Pairs written over others, later over earlier. */
  function Over(w: Written, addresses: seq<Address>, values: seq<Byte>): Written
    requires |addresses| == |values|
    decreases |addresses|
  {
    if addresses == [] then w else Over(w[addresses[0] := values[0]], addresses[1..], values[1..])
  }

  lemma {:induction false} OverIsWritten(m: Memory, w: Written, addresses: seq<Address>, values: seq<Byte>)
    requires Total(m) && |addresses| == |values|
    ensures WritePairs(Overlay(m, w), addresses, values) == Overlay(m, Over(w, addresses, values))
    decreases |addresses|
  {
    if addresses != [] {
      OverlayOne(m, w, addresses[0], values[0]);
      OverIsWritten(m, w[addresses[0] := values[0]], addresses[1..], values[1..]);
    }
  }

  lemma {:induction false} OverAt(w: Written, addresses: seq<Address>, values: seq<Byte>, a: Address)
    requires |addresses| == |values|
    ensures a in Over(w, addresses, values) ==> a in w || a in addresses
    decreases |addresses|
  {
    if addresses != [] {
      OverAt(w[addresses[0] := values[0]], addresses[1..], values[1..], a);
    }
  }

  /** What some of the replies of observers wrote, one after another. */
  ghost function RepliesOver(setting: Setting, w: Written, low: nat, high: nat): Written
    requires Fair(setting) && low <= high
    decreases high
  {
    if low == high then w
    else
      var reply := setting.replies(high - 1);
      Over(RepliesOver(setting, w, low, high - 1), reply.addresses, reply.values)
  }

  /** The addresses of bytes that are stored. */
  function Stored(a: Address, size: nat): set<Address>
    decreases size
  {
    if size == 0 then {} else {a} + Stored(Next(a), size - 1)
  }

  /** The bytes that observers wrote last, as the run goes on: an operation's observers write before it stores. */
  ghost function LastByObservers(setting: Setting, last: Written, run: Run, op: Operation): Written
    requires Fair(setting)
  {
    var next := Apply(setting, run, op).0;
    var told := if |run.calls| <= |next.calls| then RepliesOver(setting, last, |run.calls|, |next.calls|) else last;
    if op.StoreOp? && !next.failed then told - Stored(op.address, op.size) else told
  }

  /** And of a whole run. */
  ghost function ByObservers(setting: Setting, last: Written, run: Run, ops: seq<Operation>): Written
    requires Fair(setting)
    decreases |ops|
  {
    if ops == [] then last
    else
      var (next, stops) := Apply(setting, run, ops[0]);
      var more := LastByObservers(setting, last, run, ops[0]);
      if stops then more else ByObservers(setting, more, next, ops[1..])
  }

  lemma NoMore(w: Written)
    ensures w - {} == w
  {
  }

  lemma LessOf(w: Written, s: set<Address>, t: set<Address>)
    ensures w - s - t == w - (s + t)
  {
  }

  /** Bytes stored over what observers wrote last. */
  lemma {:induction false} StoreOver(start: Memory, written: Written, last: Written, a: Address, bytes: seq<Byte>)
    requires Total(start)
    ensures StoreBytes(Overlay(Overlay(start, written), last), a, bytes)
            == Overlay(Overlay(start, LogBytes(written, a, bytes)), last - Stored(a, |bytes|))
    decreases |bytes|
  {
    if bytes == [] {
      NoMore(last);
    } else {
      var rest := bytes[1..];
      assert Write(Overlay(Overlay(start, written), last), a, bytes[0])
             == Overlay(Overlay(start, written[a := bytes[0]]), last - {a});
      StoreOver(start, written[a := bytes[0]], last - {a}, Next(a), rest);
      LessOf(last, {a}, Stored(Next(a), |rest|));
    }
  }

  /** A memory is what it was, with what the run says that it wrote, and with what observers wrote last on top. */
  ghost predicate IsOver(start: Memory, run: Run, last: Written) {
    run.memory == Overlay(Overlay(start, run.written), last)
  }

  lemma ObserveIsOver(setting: Setting, start: Memory, last: Written, run: Run, call: Call)
    requires Fair(setting) && Total(start) && IsOver(start, run, last)
    ensures IsOver(start, Observe(setting, run, call), RepliesOver(setting, last, |run.calls|, |run.calls| + 1))
  {
    var reply := setting.replies(|run.calls|);
    OverIsWritten(Overlay(start, run.written), last, reply.addresses, reply.values);
  }

  lemma DeliverIsOver(setting: Setting, start: Memory, last: Written, run: Run)
    requires Fair(setting) && Total(start) && IsOver(start, run, last)
    ensures var told := Deliver(setting, run);
            && told.written == run.written && |run.calls| <= |told.calls|
            && IsOver(start, told, RepliesOver(setting, last, |run.calls|, |told.calls|))
  {
    if run.pending.Some? {
      var ready := run.(pending := None, leanRan := true);
      ObserveIsOver(setting, start, last, ready, CodeCall(run.pending.value, run.memory));
    }
  }

  lemma OneMoreReply(setting: Setting, w: Written, low: nat, middle: nat)
    requires Fair(setting) && low <= middle
    ensures RepliesOver(setting, RepliesOver(setting, w, low, middle), middle, middle + 1)
            == RepliesOver(setting, w, low, middle + 1)
  {
  }

  lemma NotifyIsOver(
      setting: Setting, start: Memory, last: Written, run: Run, write: bool, a: Address, size: nat, value: nat)
    requires Fair(setting) && Total(start) && IsOver(start, run, last)
    ensures var next := Notify(setting, run, write, a, size, value);
            && next.written == run.written && |run.calls| <= |next.calls|
            && IsOver(start, next, RepliesOver(setting, last, |run.calls|, |next.calls|))
  {
    var quiet := setting.filtered && Quiet(run.ranges, a, size, write);
    if setting.observesMemory && !run.failed && !quiet {
      var told := Deliver(setting, run);
      DeliverIsOver(setting, start, last, run);
      if !told.failed {
        var now, n := told.(leanRan := true), |told.calls|;
        var before := RepliesOver(setting, last, |run.calls|, n);
        ObserveIsOver(setting, start, before, now, MemoryCall(told.lastSite, write, a, size, value, told.memory));
        OneMoreReply(setting, last, |run.calls|, n);
      }
    }
  }

  lemma SiteIsOver(setting: Setting, start: Memory, last: Written, run: Run, pc: Address)
    requires Fair(setting) && Total(start) && IsOver(start, run, last)
    ensures var next := Site(setting, run, pc).0;
            && next.written == run.written && |run.calls| <= |next.calls|
            && IsOver(start, next, RepliesOver(setting, last, |run.calls|, |next.calls|))
  {
    var passed := run.(lastSite := Some(pc), dropped := false);
    assert IsOver(start, passed, last);
    if setting.observesCode && !run.failed && !(setting.quietSites && !run.leanRan) {
      ObserveIsOver(setting, start, last, passed, CodeCall(pc, passed.memory));
    }
  }

  lemma ApplyIsOver(setting: Setting, start: Memory, last: Written, run: Run, op: Operation)
    requires Fair(setting) && Total(start) && IsOver(start, run, last)
    ensures IsOver(start, Apply(setting, run, op).0, LastByObservers(setting, last, run, op))
  {
    match op
    case LoadOp(a, size, big) => NotifyIsOver(setting, start, last, run, false, a, size, 0);
    case StoreOp(a, size, big, value) =>
      NotifyIsOver(setting, start, last, run, true, a, size, value);
      var told := Notify(setting, run, true, a, size, value);
      if !told.failed {
        StoreOver(start, told.written, RepliesOver(setting, last, |run.calls|, |told.calls|), a, BytesOf(value, size, big));
      }
    case SiteOp(pc) => SiteIsOver(setting, start, last, run, pc);
    case RangeOp =>
  }

  lemma {:induction false} RunIsOver(setting: Setting, start: Memory, last: Written, run: Run, ops: seq<Operation>)
    requires Fair(setting) && Total(start) && IsOver(start, run, last)
    ensures IsOver(start, Execute(setting, run, ops), ByObservers(setting, last, run, ops))
    decreases |ops|
  {
    if ops != [] {
      ApplyIsOver(setting, start, last, run, ops[0]);
      var (next, stops) := Apply(setting, run, ops[0]);
      if !stops {
        RunIsOver(setting, start, LastByObservers(setting, last, run, ops[0]), next, ops[1..]);
      }
    }
  }

  /** What a run says that it wrote, over the memory before it, is the memory after it, just if what its observers wrote
      last, that no store went over, is that already. */
  lemma EveryRunOverlays(setting: Setting, start: Memory, ranges: seq<Range>, ops: seq<Operation>)
    requires Fair(setting) && Total(start)
    ensures var end := Execute(setting, Start(start, ranges), ops);
            var overlay, last := Overlay(start, end.written), ByObservers(setting, map[], Start(start, ranges), ops);
            && (end.memory == overlay <==> IsThere(overlay, last))
            && forall a: Address | a !in last :: Read(end.memory, a) == Read(overlay, a)
  {
    var run := Start(start, ranges);
    assert Overlay(Overlay(start, map[]), map[]) == start;
    RunIsOver(setting, start, map[], run, ops);
    var end, last := Execute(setting, run, ops), ByObservers(setting, map[], run, ops);
    OverIsThere(Overlay(start, end.written), last);
  }

  /** Whether what is written over a memory is there already. */
  ghost predicate IsThere(m: Memory, w: Written) {
    forall a <- w :: w[a] == Read(m, a)
  }

  lemma OverIsThere(m: Memory, w: Written)
    requires Total(m)
    ensures Overlay(m, w) == m <==> IsThere(m, w)
  {
    if IsThere(m, w) {
      forall a: Address ensures Read(Overlay(m, w), a) == Read(m, a) {}
      SameBytes(Overlay(m, w), m);
    } else {
      var a :| a in w && w[a] != Read(m, a);
      assert Read(Overlay(m, w), a) == w[a];
    }
  }

  /** Whether a reply of those that a run used writes an address. */
  ghost predicate WritesAt(setting: Setting, low: nat, high: nat, a: Address) {
    exists n :: low <= n < high && a in setting.replies(n).addresses
  }

  lemma {:induction false} RepliesAt(setting: Setting, w: Written, low: nat, high: nat, a: Address)
    requires Fair(setting) && low <= high && a in RepliesOver(setting, w, low, high)
    ensures a in w || WritesAt(setting, low, high, a)
    decreases high
  {
    if low < high {
      var reply := setting.replies(high - 1);
      OverAt(RepliesOver(setting, w, low, high - 1), reply.addresses, reply.values, a);
      if a in RepliesOver(setting, w, low, high - 1) {
        RepliesAt(setting, w, low, high - 1, a);
      }
    }
  }

  /** What observers wrote last is where some reply wrote. */
  lemma {:induction false} ByObserversAt(setting: Setting, last: Written, run: Run, ops: seq<Operation>, a: Address)
    requires Fair(setting) && a in ByObservers(setting, last, run, ops)
    ensures |run.calls| <= |Execute(setting, run, ops).calls|
    ensures a in last || WritesAt(setting, |run.calls|, |Execute(setting, run, ops).calls|, a)
    decreases |ops|
  {
    if ops != [] {
      var (next, stops) := Apply(setting, run, ops[0]);
      var more := LastByObservers(setting, last, run, ops[0]);
      CallsGrow(setting, run, ops[0]);
      if !stops {
        ByObserversAt(setting, more, next, ops[1..], a);
      }
      if a in more {
        RepliesAt(setting, last, |run.calls|, |next.calls|, a);
      }
    }
  }

  lemma CallsGrow(setting: Setting, run: Run, op: Operation)
    requires Fair(setting)
    ensures run.calls <= Apply(setting, run, op).0.calls
  {
    if op.LoadOp? || op.StoreOp? {
      assert run.calls <= Deliver(setting, run).calls;
    }
  }

  /** Where no reply that a run used writes, what the run says that it wrote, over the memory before it, is the memory
      after it. */
  lemma OverlaysElsewhere(setting: Setting, start: Memory, ranges: seq<Range>, ops: seq<Operation>, a: Address)
    requires Fair(setting) && Total(start)
    requires !WritesAt(setting, 0, |Execute(setting, Start(start, ranges), ops).calls|, a)
    ensures var end := Execute(setting, Start(start, ranges), ops);
            Read(end.memory, a) == Read(Overlay(start, end.written), a)
  {
    EveryRunOverlays(setting, start, ranges, ops);
    if a in ByObservers(setting, map[], Start(start, ranges), ops) {
      ByObserversAt(setting, map[], Start(start, ranges), ops, a);
    }
  }

  /** A run of one load whose observer writes a byte: the run says that it wrote nothing, and the memory has changed. */
  lemma ObserverIsNotSaid(a: Address)
    ensures var setting := Setting(true, false, false, false, (n: nat) => Reply(false, false, [a], [1], []));
            var end := Execute(setting, Start(Zeros(), []), [LoadOp(a, 1, false)]);
            Fair(setting) && end.written == map[] && Read(end.memory, a) == 1 && Overlay(Zeros(), end.written) != end.memory
  {
    var setting := Setting(true, false, false, false, (n: nat) => Reply(false, false, [a], [1], []));
    var run, ops := Start(Zeros(), []), [LoadOp(a, 1, false)];
    var next := Apply(setting, run, ops[0]).0;
    assert next == Notify(setting, run, false, a, 1, 0);
    WriteOne(Zeros(), a, 1);
    assert Execute(setting, next, ops[1..]) == next;
    assert Overlay(Zeros(), next.written) == Zeros();
  }
}
