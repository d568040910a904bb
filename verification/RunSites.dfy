/** The code sites of a run, where they wait: what its observers were told when (native/bap_jit.cpp:168-419, 1776-1784,
    2043-2048; obligations 2 and 3 of Bap/Jit.lean), over the ranges of a chain too. */
module RunSites {
  import opened Basics
  import opened PageTable
  import opened Bytes
  import opened MemoryFilter
  import opened RunSpec

  /** The last site that the code observer was told. */
  ghost function Delivered(calls: seq<Call>): Option<Address> {
    if calls == [] then None
    else match calls[|calls| - 1]
      case CodeCall(pc, _) => Some(pc)
      case MemoryCall(_, _, _, _, _, _) => Delivered(calls[..|calls| - 1])
  }

  /** Whether a memory observer was called when the code observer knew of the last site that the run had passed. */
  ghost predicate KnowsSite(calls: seq<Call>, i: nat)
    requires i < |calls|
  {
    calls[i].MemoryCall? ==> Delivered(calls[..i]) == calls[i].site
  }

  ghost predicate AllKnow(calls: seq<Call>) {
    forall i {:trigger KnowsSite(calls, i)} | 0 <= i < |calls| :: KnowsSite(calls, i)
  }

  /** The same, but for the observer of code that was told no site at all. */
  ghost predicate AllKnowWhatTold(calls: seq<Call>) {
    forall i {:trigger KnowsSite(calls, i)} | 0 <= i < |calls| :: KnowsSite(calls, i) || Delivered(calls[..i]).None?
  }

  /** Whether the first call of all is of the memory observer, for a site that no one was told. */
  ghost predicate Lost(calls: seq<Call>) { |calls| > 0 && calls[0].MemoryCall? && calls[0].site.Some? }

  /** What holds of the calls of a run with an observer of code: each knew the last site, or none was told; all knew it, but
      where the first of them was for a site that was dropped. */
  ghost predicate CallsAreSane(setting: Setting, run: Run) {
    && AllKnowWhatTold(run.calls) && (AllKnow(run.calls) || Lost(run.calls))
    && (Lost(run.calls) ==> setting.observesMemory && setting.quietSites)
    && (!run.failed && run.pending.None? && !run.dropped ==> Delivered(run.calls) == run.lastSite)
  }

  /** What holds between the operations of a run: nothing waits once Lean code ran; what waits is the last site; where
      sites wait no observer is called before Lean code ran; and a site that was dropped was the last, before any call or
      after one that it was lost to. */
  ghost predicate Sane(setting: Setting, run: Run) {
    && (run.leanRan ==> run.pending.None?)
    && (run.pending.Some? ==>
          setting.observesCode && setting.quietSites && !run.failed && !run.dropped && run.lastSite == run.pending)
    && (run.dropped ==>
          && setting.observesCode && setting.quietSites && run.lastSite.Some? && run.pending.None?
          && Delivered(run.calls).None? && (run.calls == [] || Lost(run.calls)))
    && (setting.quietSites && !run.leanRan ==> run.calls == [])
    && (setting.observesCode ==> CallsAreSane(setting, run))
  }

  lemma OneMoreCall(calls: seq<Call>, call: Call)
    requires AllKnowWhatTold(calls)
    requires call.MemoryCall? ==> Delivered(calls) == call.site || Delivered(calls).None?
    ensures AllKnowWhatTold(calls + [call])
    ensures AllKnow(calls) && (call.MemoryCall? ==> Delivered(calls) == call.site) ==> AllKnow(calls + [call])
    ensures Delivered(calls + [call]) == if call.CodeCall? then Some(call.pc) else Delivered(calls)
  {
    var more := calls + [call];
    assert more[..|calls|] == calls;
    forall i | 0 <= i < |calls| ensures more[..i] == calls[..i] && (KnowsSite(more, i) <==> KnowsSite(calls, i)) {
      assert more[..i] == calls[..i];
    }
  }

  lemma DeliverIsSane(setting: Setting, run: Run)
    requires Fair(setting) && Sane(setting, run) && !run.failed
    ensures Sane(setting, Deliver(setting, run)) && Deliver(setting, run).pending.None?
  {
    if run.pending.Some? {
      OneMoreCall(run.calls, CodeCall(run.pending.value, run.memory));
    }
  }

  lemma TellIsSane(setting: Setting, run: Run, call: Call)
    requires Fair(setting) && Sane(setting, run) && !run.failed && run.pending.None? && setting.observesMemory
    requires call.MemoryCall? && call.site == run.lastSite
    ensures Sane(setting, Observe(setting, run.(leanRan := true), call))
  {
    if setting.observesCode {
      OneMoreCall(run.calls, call);
      assert Lost(run.calls + [call]) <==> if run.calls == [] then call.site.Some? else Lost(run.calls);
    }
  }

  lemma NotifyIsSane(setting: Setting, run: Run, write: bool, a: Address, size: nat, value: nat)
    requires Fair(setting) && Sane(setting, run)
    ensures Sane(setting, Notify(setting, run, write, a, size, value))
  {
    var quiet := setting.filtered && Quiet(run.ranges, a, size, write);
    if setting.observesMemory && !run.failed && !quiet {
      DeliverIsSane(setting, run);
      var told := Deliver(setting, run);
      if !told.failed {
        TellIsSane(setting, told, MemoryCall(told.lastSite, write, a, size, value, told.memory));
      }
    }
  }

  lemma SiteIsSane(setting: Setting, run: Run, pc: Address)
    requires Fair(setting) && Sane(setting, run)
    ensures Sane(setting, Site(setting, run, pc).0)
  {
    if setting.observesCode {
      OneMoreCall(run.calls, CodeCall(pc, run.memory));
    }
  }

  lemma StartIsSane(setting: Setting, memory: Memory, ranges: seq<Range>)
    ensures Sane(setting, Start(memory, ranges))
  {
  }

  lemma ApplyIsSane(setting: Setting, run: Run, op: Operation)
    requires Fair(setting) && Sane(setting, run)
    ensures Sane(setting, Apply(setting, run, op).0)
  {
    match op
    case LoadOp(a, size, big) => NotifyIsSane(setting, run, false, a, size, 0);
    case StoreOp(a, size, big, value) => NotifyIsSane(setting, run, true, a, size, value);
    case SiteOp(pc) => SiteIsSane(setting, run, pc);
    case RangeOp =>
  }

  /** In every run, of one range or a chain of them, whatever its observers do: when the memory observer is called, the last
      site that the code observer was told, if any, is the last that the run passed; nothing waits once Lean code ran; and
      where sites wait, no observer is called before the memory observer first has to be. */
  lemma {:induction false} EveryRunIsSane(setting: Setting, run: Run, ops: seq<Operation>)
    requires Fair(setting) && Sane(setting, run)
    ensures Sane(setting, Execute(setting, run, ops))
    decreases |ops|
  {
    if ops != [] {
      ApplyIsSane(setting, run, ops[0]);
      var (next, stops) := Apply(setting, run, ops[0]);
      if !stops {
        EveryRunIsSane(setting, next, ops[1..]);
      }
    }
  }

  // ---------- Sites that are dropped ----------

  /** Whether the first access that isn't let through comes when the last site passed has waited into another range: what
      can be told of the operations alone. */
  ghost predicate Drops(setting: Setting, ranges: seq<Range>, waits: bool, dropped: bool, ops: seq<Operation>)
    decreases |ops|
  {
    if ops == [] then false
    else match ops[0]
      case SiteOp(_) => Drops(setting, ranges, true, false, ops[1..])
      case RangeOp => Drops(setting, ranges, false, dropped || waits, ops[1..])
      case LoadOp(a, size, _) => DropsAt(setting, ranges, a, size, false, waits, dropped, ops)
      case StoreOp(a, size, _, _) => DropsAt(setting, ranges, a, size, true, waits, dropped, ops)
  }

  ghost predicate DropsAt(
      setting: Setting, ranges: seq<Range>, a: Address, size: nat, write: bool, waits: bool, dropped: bool,
      ops: seq<Operation>)
    requires ops != []
    decreases |ops|, 0
  {
    if setting.filtered && Quiet(ranges, a, size, write) then Drops(setting, ranges, waits, dropped, ops[1..]) else dropped
  }

  lemma {:induction false} CallsStay(setting: Setting, run: Run, ops: seq<Operation>)
    requires Fair(setting)
    ensures run.calls <= Execute(setting, run, ops).calls
    decreases |ops|
  {
    if ops != [] {
      var (next, stops) := Apply(setting, run, ops[0]);
      CallsGrow(setting, run, ops[0]);
      if !stops {
        CallsStay(setting, next, ops[1..]);
      }
    }
  }

  /** Before Lean code ran, whether the call to come first is for a site that was dropped is as the operations say. */
  lemma {:induction false} LostIfDropped(setting: Setting, run: Run, ops: seq<Operation>)
    requires Fair(setting) && Sane(setting, run) && setting.observesCode && setting.observesMemory && setting.quietSites
    requires !run.leanRan && !run.failed
    ensures Lost(Execute(setting, run, ops).calls)
            <==> Drops(setting, run.ranges, run.pending.Some?, run.dropped, ops)
    decreases |ops|
  {
    if ops != [] {
      var (next, stops) := Apply(setting, run, ops[0]);
      ApplyIsSane(setting, run, ops[0]);
      if next.calls == [] {
        NoCallYet(setting, run, ops);
        LostIfDropped(setting, next, ops[1..]);
      } else {
        FirstCall(setting, run, ops[0]);
        CallsStay(setting, next, ops[1..]);
      }
    }
  }

  /** As long as there is no call, an operation goes on, and changes no more than what waits and what is dropped. */
  lemma NoCallYet(setting: Setting, run: Run, ops: seq<Operation>)
    requires Fair(setting) && Sane(setting, run) && setting.observesCode && setting.observesMemory && setting.quietSites
    requires !run.leanRan && !run.failed && ops != [] && Apply(setting, run, ops[0]).0.calls == []
    ensures var (next, stops) := Apply(setting, run, ops[0]);
            && !stops && !next.leanRan && !next.failed
            && Drops(setting, next.ranges, next.pending.Some?, next.dropped, ops[1..])
               == Drops(setting, run.ranges, run.pending.Some?, run.dropped, ops)
  {
  }

  /** The first call of a run is for a site that was dropped if there is one, and otherwise for one that is told first. */
  lemma FirstCall(setting: Setting, run: Run, op: Operation)
    requires Fair(setting) && Sane(setting, run) && setting.observesCode && setting.observesMemory && setting.quietSites
    requires !run.leanRan && !run.failed && Apply(setting, run, op).0.calls != []
    ensures op.LoadOp? || op.StoreOp?
    ensures !(setting.filtered && Quiet(run.ranges, op.address, op.size, op.StoreOp?))
    ensures Lost(Apply(setting, run, op).0.calls) <==> run.dropped
  {
  }

  /** Whether an observer asked a run to stop, as that of code can, or threw. */
  ghost predicate AsksToStop(setting: Setting, calls: seq<Call>, i: nat)
    requires i < |calls|
  {
    setting.replies(i).failed || (calls[i].CodeCall? && setting.replies(i).stop)
  }

  /** Whether no call but the last asked to stop, and none at all of a run that goes on. */
  ghost predicate GoesOnWell(setting: Setting, run: Run, stops: bool) {
    forall i {:trigger AsksToStop(setting, run.calls, i)} | 0 <= i < |run.calls| ::
      AsksToStop(setting, run.calls, i) ==> i == |run.calls| - 1 && (run.failed || stops)
  }

  lemma ObserveWell(setting: Setting, run: Run, call: Call)
    requires Fair(setting) && GoesOnWell(setting, run, false) && !run.failed
    ensures var told := Observe(setting, run, call);
            GoesOnWell(setting, told, call.CodeCall? && setting.replies(|run.calls|).stop)
  {
    var told := Observe(setting, run, call);
    forall i | 0 <= i < |told.calls| && AsksToStop(setting, told.calls, i)
      ensures i == |told.calls| - 1 && (told.failed || (call.CodeCall? && setting.replies(|run.calls|).stop)) {
      if i < |run.calls| {
        assert AsksToStop(setting, run.calls, i);
      }
    }
  }

  lemma NotifyWell(setting: Setting, run: Run, write: bool, a: Address, size: nat, value: nat)
    requires Fair(setting) && GoesOnWell(setting, run, false)
    ensures GoesOnWell(setting, Notify(setting, run, write, a, size, value), false)
  {
    var quiet := setting.filtered && Quiet(run.ranges, a, size, write);
    if setting.observesMemory && !run.failed && !quiet {
      var told := Deliver(setting, run);
      if run.pending.Some? {
        var ready := run.(pending := None, leanRan := true);
        assert GoesOnWell(setting, ready, false);
        ObserveWell(setting, ready, CodeCall(run.pending.value, run.memory));
        assert told.calls == CallCode(setting, ready, run.pending.value).calls;
      }
      assert GoesOnWell(setting, told, false);
      if !told.failed {
        var now := told.(leanRan := true);
        assert GoesOnWell(setting, now, false);
        ObserveWell(setting, now, MemoryCall(told.lastSite, write, a, size, value, told.memory));
      }
    }
  }

  lemma SiteWell(setting: Setting, run: Run, pc: Address)
    requires Fair(setting) && GoesOnWell(setting, run, false)
    ensures GoesOnWell(setting, Site(setting, run, pc).0, Site(setting, run, pc).1)
  {
    if setting.observesCode && !run.failed && !(setting.quietSites && !run.leanRan) {
      var passed := run.(lastSite := Some(pc), dropped := false);
      assert GoesOnWell(setting, passed, false);
      ObserveWell(setting, passed, CodeCall(pc, run.memory));
    }
  }

  /** In every run, once the code observer asks to stop, told at its site or of one that waited, or any observer throws, no
      observer is called again: a waiting site that stops keeps the memory observer from its access. */
  lemma {:induction false} StopIsLast(setting: Setting, run: Run, ops: seq<Operation>)
    requires Fair(setting) && GoesOnWell(setting, run, false)
    ensures GoesOnWell(setting, Execute(setting, run, ops), true)
    decreases |ops|
  {
    if ops != [] {
      match ops[0] {
        case LoadOp(a, size, big) => NotifyWell(setting, run, false, a, size, 0);
        case StoreOp(a, size, big, value) =>
          NotifyWell(setting, run, true, a, size, value);
          assert Store(setting, run, a, size, big, value).calls == Notify(setting, run, true, a, size, value).calls;
        case SiteOp(pc) => SiteWell(setting, run, pc);
        case RangeOp =>
      }
      var (next, stops) := Apply(setting, run, ops[0]);
      assert GoesOnWell(setting, next, stops);
      if !stops {
        StopIsLast(setting, next, ops[1..]);
      }
    }
  }

  /** Of any run from its start: the memory observer is always called with the code observer knowing the last site just if
      no site is dropped before the first access that isn't let through. */
  lemma FromItsStart(setting: Setting, memory: Memory, ranges: seq<Range>, ops: seq<Operation>)
    requires Fair(setting)
    ensures var end := Execute(setting, Start(memory, ranges), ops);
            && (setting.observesCode ==>
                  && AllKnowWhatTold(end.calls)
                  && (AllKnow(end.calls) <==>
                      !(setting.observesMemory && setting.quietSites && Drops(setting, ranges, false, false, ops))))
            && (end.leanRan ==> end.pending.None?)
            && forall i | 0 <= i < |end.calls| - 1 :: !AsksToStop(setting, end.calls, i)
  {
    var start, end := Start(memory, ranges), Execute(setting, Start(memory, ranges), ops);
    StartIsSane(setting, memory, ranges);
    EveryRunIsSane(setting, start, ops);
    StopIsLast(setting, start, ops);
    if setting.observesCode {
      assert Lost(end.calls) ==> !KnowsSite(end.calls, 0);
      if setting.observesMemory && setting.quietSites {
        LostIfDropped(setting, start, ops);
      }
    }
  }

  /** A site that waits, the next range, and a load: the memory observer is called for a site that no one was told. */
  lemma DroppedIsNotTold(memory: Memory, pc: Address, a: Address)
    ensures var setting := Setting(true, true, false, true, (n: nat) => Reply(false, false, [], [], []));
            var end := Execute(setting, Start(memory, []), [SiteOp(pc), RangeOp, LoadOp(a, 1, false)]);
            Fair(setting) && end.calls == [MemoryCall(Some(pc), false, a, 1, 0, memory)] && !AllKnow(end.calls)
  {
    var setting := Setting(true, true, false, true, (n: nat) => Reply(false, false, [], [], []));
    var ops := [SiteOp(pc), RangeOp, LoadOp(a, 1, false)];
    assert ops[1..] == [RangeOp, LoadOp(a, 1, false)] && ops[1..][1..] == [LoadOp(a, 1, false)];
    var waits := Site(setting, Start(memory, []), pc).0;
    var next := NextRange(waits).0;
    var told := Notify(setting, next, false, a, 1, 0);
    assert Execute(setting, Start(memory, []), ops) == Execute(setting, waits, ops[1..]) == Execute(setting, next, ops[1..][1..]);
    assert ops[1..][1..][1..] == [];
    assert Execute(setting, next, ops[1..][1..]) == told;
    assert !KnowsSite(told.calls, 0);
  }
}
