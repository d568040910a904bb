/** The cells of a run (native/bap_jit.cpp:168-419, 596-650, 931-1037, 1776-1784): what compiled code goes through for
    each access and each code site, with the pages that it has at hand, the ranges that were quiet last, and the site that
    waits. Each operation comes to what `RunSpec` says of it, whatever it has at hand. */
module Cells {
  import opened Basics
  import opened PageTable
  import opened Bytes
  import opened Endian
  import opened RunSpec
  import S = StepLog
  import Pages = PagedMemory
  import Log = StoreLog
  import Filters = MemoryFilter

  const PAGE_ENTRIES: nat := 64

  /** Where a page was last found: one more than its number, so that 0 is an entry that has none. */
  datatype PageEntry = PageEntry(tag: nat, page: nat)

  function NoEntries(): (list: seq<PageEntry>)
    ensures |list| == PAGE_ENTRIES && forall k | 0 <= k < |list| :: list[k].tag == 0
  {
    seq(PAGE_ENTRIES, _ => PageEntry(0, 0))
  }

  /** Whether an entry is at the place of its page, which is found there. */
  ghost predicate EntryIsRight(entries: Entries, e: PageEntry, k: nat) {
    e.tag != 0 ==>
      && e.tag <= Log.PAGES && (e.tag - 1) % PAGE_ENTRIES == k
      && Find(entries, (e.tag - 1) * PAGE_SIZE) == Some(e.page)
  }

  ghost predicate AllRight(entries: Entries, list: seq<PageEntry>) {
    forall k {:trigger EntryIsRight(entries, list[k], k)} | 0 <= k < |list| :: EntryIsRight(entries, list[k], k)
  }

  lemma EntriesStay(entries: Entries, more: Entries, list: seq<PageEntry>)
    requires AllRight(entries, list) && Grows(entries, more)
    ensures AllRight(more, list)
  {
    forall k | 0 <= k < |list| ensures EntryIsRight(more, list[k], k) {
      assert EntryIsRight(entries, list[k], k);
      if list[k].tag != 0 {
        FindStays(entries, more, (list[k].tag - 1) * PAGE_SIZE);
      }
    }
  }

  /** Whether a range at hand is one that lets accesses through. */
  ghost predicate RangeIsRight(ranges: seq<Filters.Range>, first: Address, last: Address, write: bool) {
    exists r <- ranges :: r.first == first && r.last == last && r.LetsThrough(write)
  }

  /** Whether what is quiet at hand is so: there is nothing that isn't the filter's, and nothing once the run has failed. */
  ghost predicate QuietIsRight(
      setting: Setting, failed: bool, ranges: seq<Filters.Range>, first: seq<Address>, last: seq<Address>) {
    && |first| == |last| == 2
    && forall write: bool | first[Index(write)] <= last[Index(write)] ::
         !failed && setting.filtered && RangeIsRight(ranges, first[Index(write)], last[Index(write)], write)
  }

  /** Whether the pages at hand are where they are found, and there are none once the run has failed. */
  ghost predicate EntriesAreRight(entries: Entries, failed: bool, list: seq<PageEntry>) {
    |list| == PAGE_ENTRIES && AllRight(entries, list) && (failed ==> list == NoEntries())
  }

  function Index(write: bool): nat { if write then 1 else 0 }

  class Cells {
    const setting: Setting
    const space: Pages.PagedMemory
    const changes: Log.StoreLog
    const filter: Filters.MemoryFilter
    // What the memory was when its step began.
    ghost const stepStart: Memory
    var failed: bool
    var leanRan: bool
    var pendingSite: bool
    var pendingPc: Address
    // Of the last range that let a read, and a write, through.
    var quietFirst: seq<Address>
    var quietLast: seq<Address>
    var pageEntries: seq<PageEntry>
    // How many calls of observers there were, and which, and the last site that was passed.
    var called: nat
    ghost var calls: seq<Call>
    ghost var lastSite: Option<Address>
    ghost var dropped: bool

    /** What the run is, with nothing of what it has at hand. */
    ghost function View(): Run
      reads this, space, changes, filter
    {
      Run(space.Contents(), changes.written, failed, leanRan, if pendingSite then Some(pendingPc) else None,
          filter.ranges, lastSite, dropped, calls)
    }

    ghost predicate Valid()
      reads this, space, changes, filter
    {
      && Fair(setting) && space.Valid() && changes.Valid() && filter.Valid() && called == |calls|
      && QuietIsRight(setting, failed, filter.ranges, quietFirst, quietLast)
      && EntriesAreRight(space.entries, failed, pageEntries)
      && space.stepStart == stepStart && HoldsFor(stepStart, space.Contents(), space.Step(), changes.written)
    }

    constructor (setting: Setting, space: Pages.PagedMemory, filter: Filters.MemoryFilter)
      requires Fair(setting) && space.Valid() && space.StepKept() && filter.Valid()
      ensures Valid() && fresh(this) && fresh(changes)
      ensures this.setting == setting && this.space == space && this.filter == filter && stepStart == space.stepStart
      ensures View() == Start(space.Contents(), filter.ranges)
    {
      this.setting, this.space, this.filter := setting, space, filter;
      changes := new Log.StoreLog();
      stepStart := space.stepStart;
      failed, leanRan, pendingSite, pendingPc := false, false, false, 0;
      quietFirst, quietLast := [1, 1], [0, 0];
      pageEntries := NoEntries();
      called, calls, lastSite, dropped := 0, [], None, false;
    }

    /** The run fails. All that is at hand goes, so that compiled code has to ask, and learns of it. */
    method Fail()
      requires Valid()
      modifies this`failed, this`pageEntries, this`quietFirst, this`quietLast
      ensures Valid() && View() == old(View()).(failed := true)
    {
      failed := true;
      pageEntries := NoEntries();
      quietFirst, quietLast := [1, 1], [0, 0];
    }

    /** Lean code writes to the memory, where pages stay as they are. */
    method LeanWrites(addresses: seq<Address>, values: seq<Byte>)
      requires Valid() && |addresses| == |values|
      modifies space
      ensures Valid() && View() == old(View()).(memory := WritePairs(old(space.Contents()), addresses, values))
    {
      space.WriteAll(addresses, values);
      EntriesStay(old(space.entries), space.entries, pageEntries);
      HoldsNoting(space.stepStart, old(space.Contents()), old(space.Step()), space.Contents(), space.Step(), changes.written);
    }

    /** Lean code changes what is quiet, so that nothing quiet is at hand any more. */
    method LeanFilters(ranges: seq<Filters.Range>)
      requires Valid() && Filters.InOrder(ranges)
      modifies this`quietFirst, this`quietLast, filter
      ensures Valid() && View() == old(View()).(ranges := ranges)
    {
      quietFirst, quietLast, filter.ranges := [1, 1], [0, 0], ranges;
    }

    /** Lean code runs, which may write to the memory and change what is quiet. */
    method LeanRuns(reply: Reply)
      requires Valid() && |reply.addresses| == |reply.values| && Filters.InOrder(reply.ranges)
      modifies this`quietFirst, this`quietLast, space, filter
      ensures Valid()
      ensures View() == old(View()).(memory := WritePairs(old(space.Contents()), reply.addresses, reply.values),
                                     ranges := reply.ranges)
    {
      LeanWrites(reply.addresses, reply.values);
      LeanFilters(reply.ranges);
    }

    /** Counts a call of an observer. */
    method CountCall(ghost call: Call)
      requires Valid()
      modifies this`called, this`calls
      ensures Valid() && View() == old(View()).(calls := old(calls) + [call])
    {
      called, calls := called + 1, calls + [call];
    }

    /** An observer is called, which may throw. */
    method CallLean(ghost call: Call) returns (stop: bool)
      requires Valid() && !failed
      modifies this, space, filter
      ensures Valid() && View() == Observe(setting, old(View()), call) && |calls| > 0
      ensures stop == Stops(setting, View())
    {
      var reply := setting.replies(called);
      LeanRuns(reply);
      CountCall(call);
      if reply.failed {
        Fail();
      }
      stop := reply.failed || reply.stop;
    }

    /** Whether a range of the filter lets an access through, which is at hand from then on. */
    method LetsThrough(write: bool, a: Address, size: nat) returns (quiet: bool)
      requires Valid() && !failed && size < WORD
      modifies this`quietFirst, this`quietLast
      ensures Valid() && View() == old(View())
      ensures quiet <==> setting.filtered && Filters.Quiet(filter.ranges, a, size, write)
    {
      if !setting.filtered {
        return false;
      }
      var range := filter.QuietRange(a, size, write);
      if range.Some? {
        KeepQuiet(write, range.value);
      }
      quiet := range.Some?;
    }

    method KeepQuiet(write: bool, range: Filters.Range)
      requires Valid() && !failed && setting.filtered && range in filter.ranges && range.LetsThrough(write)
      modifies this`quietFirst, this`quietLast
      ensures Valid() && View() == old(View())
    {
      quietFirst, quietLast := quietFirst[Index(write) := range.first], quietLast[Index(write) := range.last];
    }

    /** The observer of an access, unless a range of the filter lets it through. */
    method NotifyMemory(write: bool, a: Address, size: nat, value: nat)
      requires Valid() && size < WORD
      modifies this, space, filter
      ensures Valid() && View() == Notify(setting, old(View()), write, a, size, value)
    {
      if !setting.observesMemory || failed {
        return;
      }
      var quiet := LetsThrough(write, a, size);
      if quiet {
        return;
      }
      if pendingSite {
        DeliverSite();
        if failed {
          return;
        }
      }
      TellMemory(write, a, size, value);
    }

    method TellMemory(write: bool, a: Address, size: nat, value: nat)
      requires Valid() && !failed
      modifies this, space, filter
      ensures Valid()
      ensures var run := old(View()).(leanRan := true);
              View() == Observe(setting, run, MemoryCall(run.lastSite, write, a, size, value, run.memory))
    {
      leanRan := true;
      var _ := CallLean(MemoryCall(lastSite, write, a, size, value, space.Contents()));
    }

    /** Tells the code observer of the site that waited; the run fails if that asks it to stop. */
    method DeliverSite()
      requires Valid() && !failed && pendingSite
      modifies this, space, filter
      ensures Valid() && View() == Deliver(setting, old(View()))
    {
      pendingSite, leanRan := false, true;
      var stop := CallLean(CodeCall(pendingPc, space.Contents()));
      if stop && !failed {
        Fail();
      }
    }

    /** The observer of an access, which compiled code calls unless the access is in the range at hand. */
    method NotifyAccess(write: bool, a: Address, size: nat, value: nat)
      requires Valid() && 1 <= size <= 8
      modifies this, space, filter
      ensures Valid() && View() == Notify(setting, old(View()), write, a, size, value)
    {
      var first, last := quietFirst[Index(write)], quietLast[Index(write)];
      var end := Wrapped(a + size - 1);
      if first <= a && end <= last && a <= end {
        AtHandIsQuiet(filter.ranges, first, last, a, size, write);
        return;
      }
      NotifyMemory(write, a, size, value);
    }

    /** A code site is passed, which is for the proof alone. */
    ghost method Pass(pc: Address)
      requires Valid()
      modifies this`lastSite, this`dropped
      ensures Valid() && View() == old(View()).(lastSite := Some(pc), dropped := false)
    {
      lastSite, dropped := Some(pc), false;
    }

    /** A code site waits. */
    method Wait(pc: Address)
      requires Valid()
      modifies this`pendingSite, this`pendingPc
      ensures Valid() && View() == old(View()).(pending := Some(pc))
    {
      pendingSite, pendingPc := true, pc;
    }

    /** What a code site does: it waits where it would only set the pc, and is told to the code observer otherwise. */
    method NotifyCode(pc: Address) returns (stop: bool)
      requires Valid()
      modifies this, space, filter
      ensures Valid() && (View(), stop) == Site(setting, old(View()), pc)
    {
      if failed {
        return true;
      }
      Pass(pc);
      if !setting.observesCode {
        return false;
      }
      if setting.quietSites && !leanRan {
        Wait(pc);
        return false;
      }
      stop := CallLean(CodeCall(pc, space.Contents()));
    }

    /** A code site in compiled code, which calls only where Lean code is to run. */
    method CodeSite(pc: Address) returns (stop: bool)
      requires Valid()
      modifies this, space, filter
      ensures Valid() && (View(), stop) == Site(setting, old(View()), pc)
    {
      var observed, fine, waits := setting.observesCode, !failed, setting.quietSites && !leanRan;
      if fine && !observed {
        Pass(pc);
        return false;
      }
      if fine && waits {
        Wait(pc);
        Pass(pc);
        return false;
      }
      stop := NotifyCode(pc);
    }

    /** The next range of a chain begins, with the pages and the quiet ranges that are at hand, and the one log of what is
        written; a site that waits does no more. A chain does not go on from a range where Lean code ran. */
    method NextRange() returns (stop: bool)
      requires Valid()
      modifies this`pendingSite, this`dropped
      ensures Valid() && (View(), stop) == RunSpec.NextRange(old(View()))
    {
      if failed || leanRan {
        return true;
      }
      dropped := dropped || pendingSite;
      pendingSite, stop := false, false;
    }

    // ---------- Pages at hand ----------

    /** Looks a page up for an access and keeps it at hand: made if it is to store, there is none for a load where no page
        is, nor after a failure. */
    method MemoryPage(a: Address, write: bool) returns (page: Option<nat>)
      requires Valid()
      modifies this`pageEntries, space
      ensures Valid() && View() == old(View())
      ensures page == if failed then None else Find(space.entries, a)
      ensures if write && !failed then page.Some? else space.entries == old(space.entries)
    {
      if failed {
        return None;
      }
      if write {
        EnsurePage(a);
      }
      page := Find(space.entries, a);
      if page.Some? {
        Remember(a, page.value);
      }
    }

    method EnsurePage(a: Address)
      requires Valid()
      modifies space
      ensures Valid() && View() == old(View()) && Find(space.entries, a).Some?
    {
      var _ := space.Ensure(a);
      EntriesStay(old(space.entries), space.entries, pageEntries);
    }

    method Remember(a: Address, p: nat)
      requires Valid() && !failed && Find(space.entries, a) == Some(p)
      modifies this`pageEntries
      ensures Valid() && View() == old(View())
    {
      var number := PageNumber(a);
      FindByNumber(space.entries, a, number * PAGE_SIZE);
      pageEntries := pageEntries[number % PAGE_ENTRIES := PageEntry(number + 1, p)];
    }

    /** A page for one instruction of the host: that at hand, or else the one that is looked up, unless the address isn't
        aligned. */
    method PageForAccess(a: Address, size: nat, write: bool) returns (page: Option<nat>)
      requires Valid() && HasInstruction(size)
      modifies this`pageEntries, space
      ensures Valid() && View() == old(View())
      ensures page.Some? ==> !failed && Find(space.entries, a) == page && a % PAGE_SIZE + size <= PAGE_SIZE
      ensures if write && !failed && a % size == 0 then page.Some? else space.entries == old(space.entries)
    {
      var aligned, number := a % size == 0, PageNumber(a);
      var entry := pageEntries[number % PAGE_ENTRIES];
      InstructionFits(a, size);
      if aligned && entry.tag == number + 1 {
        assert EntryIsRight(space.entries, entry, number % PAGE_ENTRIES);
        FindByNumber(space.entries, a, number * PAGE_SIZE);
        page := Some(entry.page);
        return;
      }
      if !aligned {
        return None;
      }
      page := MemoryPage(a, write);
    }

    // ---------- Loads and stores ----------

    /** The way of what no instruction does. */
    method LoadBytesOf(a: Address, size: nat, big: bool) returns (value: nat)
      requires Valid()
      ensures value == if failed then 0 else ValueOf(LoadBytes(space.Contents(), a, size), big)
    {
      if failed {
        return 0;
      }
      var bytes := space.Load(a, size);
      value := ValueOf(bytes, big);
    }

    /** A load: its observer, then the one instruction that does it, or else byte by byte. */
    method MemLoad(a: Address, size: nat, big: bool) returns (value: nat)
      requires Valid() && 1 <= size <= 8
      modifies this, space, filter
      ensures Valid() && (View(), value) == Load(setting, old(View()), a, size, big)
    {
      NotifyAccess(false, a, size, 0);
      value := LoadOf(a, size, big);
    }

    method LoadOf(a: Address, size: nat, big: bool) returns (value: nat)
      requires Valid()
      modifies this`pageEntries, space
      ensures Valid() && View() == old(View())
      ensures value == if failed then 0 else ValueOf(LoadBytes(space.Contents(), a, size), big)
    {
      if HasInstruction(size) {
        var page := PageForAccess(a, size, false);
        assert space.Contents() == old(View()).memory && failed == old(failed);
        if page.Some? {
          value := LoadInPage(a, size, big, page.value);
          return;
        }
      }
      value := LoadBytesOf(a, size, big);
    }

    method LoadInPage(a: Address, size: nat, big: bool, p: nat) returns (value: nat)
      requires Valid() && a % PAGE_SIZE + size <= PAGE_SIZE && Find(space.entries, a) == Some(p)
      ensures value == ValueOf(LoadBytes(space.Contents(), a, size), big)
    {
      FindServes(space.entries, space.nodes, space.owners, a);
      var bytes := space.pages[p][a % PAGE_SIZE..a % PAGE_SIZE + size];
      LoadOfPage(space.entries, space.pages, a, size);
      value := WordLoaded(bytes, big);
    }

    /** The way of what no instruction does. */
    method StoreBytesOf(a: Address, size: nat, big: bool, value: nat)
      requires Valid()
      modifies space, changes
      ensures Valid() && View() == PutBytes(old(View()), a, size, big, value)
    {
      if failed {
        return;
      }
      var bytes := BytesOf(value, size, big);
      space.Store(a, bytes);
      EntriesStay(old(space.entries), space.entries, pageEntries);
      changes.Note(a, size, big, value);
      HoldsStore(space.stepStart, old(space.Contents()), space.Step(), old(changes.written), a, bytes);
    }

    /** A store: its observer, then the one instruction that does it, or else byte by byte; and then its note. */
    method MemStore(a: Address, size: nat, big: bool, value: nat)
      requires Valid() && 1 <= size <= 8
      modifies this, space, filter, changes
      ensures Valid() && View() == Store(setting, old(View()), a, size, big, value)
    {
      NotifyAccess(true, a, size, value);
      if HasInstruction(size) {
        var page := PageForAccess(a, size, true);
        if page.Some? {
          StoreInPage(a, size, big, value, page.value);
          return;
        }
      }
      StoreBytesOf(a, size, big, value);
    }

    method StoreInPage(a: Address, size: nat, big: bool, value: nat, p: nat)
      requires Valid() && !failed && a % PAGE_SIZE + size <= PAGE_SIZE && Find(space.entries, a) == Some(p)
      modifies space, changes
      ensures Valid() && View() == PutBytes(old(View()), a, size, big, value)
    {
      FindServes(space.entries, space.nodes, space.owners, a);
      space.PutInPage(a, p, WordStored(value, size, big));
      changes.Note(a, size, big, value);
      HoldsStore(space.stepStart, old(space.Contents()), space.Step(), old(changes.written), a, BytesOf(value, size, big));
    }

    // ---------- A run ----------

    /** The operations of a run, up to a site that stops it, and what its loads loaded. */
    method Perform(ops: seq<Operation>) returns (loaded: seq<nat>)
      requires Valid() && forall op <- ops :: op.LoadOp? || op.StoreOp? ==> 1 <= op.size <= 8
      modifies this, space, filter, changes
      ensures Valid() && View() == Execute(setting, old(View()), ops) && loaded == Loads(setting, old(View()), ops)
      decreases |ops|
    {
      if ops == [] {
        return [];
      }
      var stop;
      stop, loaded := PerformOne(ops[0]);
      if !stop {
        var more := Perform(ops[1..]);
        loaded := loaded + more;
      }
    }

    method PerformOne(op: Operation) returns (stop: bool, loaded: seq<nat>)
      requires Valid() && (op.LoadOp? || op.StoreOp? ==> 1 <= op.size <= 8)
      modifies this, space, filter, changes
      ensures Valid() && (View(), stop) == Apply(setting, old(View()), op) && loaded == LoadedBy(setting, old(View()), op)
    {
      stop, loaded := false, [];
      match op
      case LoadOp(a, size, big) =>
        var value := MemLoad(a, size, big);
        loaded := [value];
      case StoreOp(a, size, big, value) => MemStore(a, size, big, value);
      case SiteOp(pc) => stop := CodeSite(pc);
      case RangeOp => stop := NextRange();
    }

    /** The end of a run, failed or not: what it wrote, each byte once, which its step is told of, so that the step can be
        taken back. */
    method Finish() returns (report: seq<(Address, Byte)>)
      requires Valid()
      modifies space`stepWrites, space`stepOverflowed
      ensures Valid() && View() == old(View()) && space.StepKept()
      ensures Log.Collected(report) == changes.written && |report| == |changes.written|
    {
      report := changes.Report();
      TellStep(report);
    }

    method TellStep(report: seq<(Address, Byte)>)
      requires Valid() && Log.Collected(report) == changes.written
      modifies space`stepWrites, space`stepOverflowed
      ensures HoldsFor(stepStart, space.Contents(), space.Step(), map[])
      ensures HoldsFor(stepStart, space.Contents(), space.Step(), changes.written)
    {
      ghost var rest := changes.written;
      forall a | a in rest ensures IsIn(report, 0, a) {
        CollectedIsIn(report, a);
      }
      for i := 0 to |report|
        invariant HoldsFor(stepStart, space.Contents(), space.Step(), rest)
        invariant HoldsFor(stepStart, space.Contents(), space.Step(), changes.written)
        invariant forall a {:trigger IsIn(report, i, a)} | a in rest :: IsIn(report, i, a)
      {
        HoldsNoted(stepStart, space.Contents(), space.Step(), changes.written, report[i].0);
        HoldsNoted(stepStart, space.Contents(), space.Step(), rest, report[i].0);
        space.NoteStep(report[i].0, 1);
        forall a | a in rest - {report[i].0} ensures IsIn(report, i + 1, a) {
          assert IsIn(report, i, a);
        }
        rest := rest - {report[i].0};
      }
      forall a ensures a !in rest {
        assert !IsIn(report, |report|, a);
      }
      assert rest == map[];
    }
  }

  /** The bytes that an instruction stores: those of a word of the host, swapped where the order is the other one. */
  function WordStored(value: nat, size: nat, big: bool): (bytes: seq<Byte>)
    ensures bytes == BytesOf(value, size, big)
  {
    StoreOfSwap(value, size);
    Little(if size == 1 || !big then value else Swapped(value, size), size)
  }

  /** The value that an instruction loads. */
  function WordLoaded(bytes: seq<Byte>, big: bool): (value: nat)
    ensures value == ValueOf(bytes, big)
  {
    SwapIsBig(bytes);
    var loaded := LittleValue(bytes);
    if |bytes| == 1 || !big then loaded else Swapped(loaded, |bytes|)
  }

  lemma LoadOfPage(entries: Entries, pages: seq<Page>, a: Address, size: nat)
    requires a % PAGE_SIZE + size <= PAGE_SIZE && Find(entries, a).Some? && Find(entries, a).value < |pages|
    requires |pages[Find(entries, a).value]| == PAGE_SIZE
    ensures LoadBytes(Pages.MemoryIn(entries, pages), a, size)
            == pages[Find(entries, a).value][a % PAGE_SIZE..a % PAGE_SIZE + size]
  {
    var m, page := Pages.MemoryIn(entries, pages), pages[Find(entries, a).value];
    var bytes := LoadBytes(m, a, size);
    RoomInPage(a);
    forall k | 0 <= k < size ensures bytes[k] == page[a % PAGE_SIZE + k] {
      LoadBytesAt(m, a, size, k);
      OnWithin(a, k);
      ByteOfPage(entries, pages, a, k);
    }
  }

  /** Whether a step can be taken back by what it noted and what a run wrote. */
  ghost predicate HoldsFor(start: Memory, now: Memory, steps: S.Steps, written: Log.Written) {
    Total(start) && (steps.open && !steps.overflowed ==>
      forall a: Address {:trigger S.KeptAt(start, now, steps.notes, a)} ::
          a in written || S.KeptAt(start, now, steps.notes, a))
  }

  lemma HoldsNoting(start: Memory, before: Memory, s: S.Steps, now: Memory, t: S.Steps, written: Log.Written)
    requires HoldsFor(start, before, s, written) && S.Noting(before, s, now, t)
    ensures HoldsFor(start, now, t, written)
  {
    if t.open && !t.overflowed {
      forall a: Address ensures a in written || S.KeptAt(start, now, t.notes, a) {
        assert S.KeptAt(before, now, t.notes, a);
        assert a in written || S.KeptAt(start, before, s.notes, a);
        if S.Noted(s.notes, a) {
          S.NotedStill(s.notes, t.notes, a);
        }
      }
    }
  }

  /** What is in the range at hand is quiet. */
  lemma AtHandIsQuiet(ranges: seq<Filters.Range>, first: Address, last: Address, a: Address, size: nat, write: bool)
    requires RangeIsRight(ranges, first, last, write) && 1 <= size <= 8
    requires first <= a && Wrapped(a + size - 1) <= last && a <= Wrapped(a + size - 1)
    ensures Filters.Quiet(ranges, a, size, write)
  {
    var r :| r in ranges && r.first == first && r.last == last && r.LetsThrough(write);
    assert r.Quiets(a, size, write);
  }

  /** Bytes that are stored and noted by the run. */
  lemma {:induction false} HoldsStore(
      start: Memory, now: Memory, steps: S.Steps, written: Log.Written, a: Address, bytes: seq<Byte>)
    requires HoldsFor(start, now, steps, written)
    ensures HoldsFor(start, StoreBytes(now, a, bytes), steps, Log.LogBytes(written, a, bytes))
    decreases |bytes|
  {
    if bytes != [] {
      var next, more := Write(now, a, bytes[0]), written[a := bytes[0]];
      forall b: Address | steps.open && !steps.overflowed ensures b in more || S.KeptAt(start, next, steps.notes, b) {
        assert b in written || S.KeptAt(start, now, steps.notes, b);
      }
      HoldsStore(start, next, steps, more, Next(a), bytes[1..]);
    }
  }

  lemma HoldsNoted(start: Memory, now: Memory, steps: S.Steps, written: Log.Written, a: Address)
    requires HoldsFor(start, now, steps, written)
    ensures HoldsFor(start, now, S.NoteIn(steps, (a, 1)), written - {a})
    ensures HoldsFor(start, now, S.NoteIn(steps, (a, 1)), written)
  {
    var t := S.NoteIn(steps, (a, 1));
    if t.open && !t.overflowed {
      assert t.notes[|steps.notes|] == (a, 1);
      forall b: Address ensures b in written - {a} || S.KeptAt(start, now, t.notes, b) {
        assert b in written || S.KeptAt(start, now, steps.notes, b);
        if b == a {
          assert S.Covers(t.notes[|steps.notes|], b);
        } else if S.Noted(steps.notes, b) {
          S.NotedStill(steps.notes, t.notes, b);
        }
      }
    }
  }

  /** Whether an address is in what is left of a report. */
  ghost predicate IsIn(report: seq<(Address, Byte)>, from: nat, a: Address) {
    exists j :: from <= j < |report| && report[j].0 == a
  }

  lemma {:induction false} CollectedIsIn(report: seq<(Address, Byte)>, a: Address)
    requires a in Log.Collected(report)
    ensures IsIn(report, 0, a)
    decreases |report|
  {
    var n := |report| - 1;
    if report[n].0 != a {
      CollectedIsIn(report[..n], a);
      var j :| 0 <= j < n && report[..n][j].0 == a;
      assert report[j].0 == a;
    }
  }
}
