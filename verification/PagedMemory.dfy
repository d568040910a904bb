/** The guest address space of one thread (native/paged_memory.h): pages made as they are written, found through the
    table, and what was written since a step began. */
module PagedMemory {
  import opened Basics
  import opened PageTable
  import opened Bytes
  import opened StepLog
  import opened PageWalk

  /** Up to how many pages of a range are looked for one at a time, and not among all that there are. */
  const WALK_LIMIT: nat := 0x1_0000

  class PagedMemory {
    // The entries of the nodes, and the bytes of the pages, by their numbers, which are what a pointer to one is.
    var entries: Entries
    var nodeCount: nat
    var pages: seq<Page>
    // What each node and each page is for.
    ghost var nodes: seq<NodeInfo>
    ghost var owners: seq<PageInfo>
    // The log of the step: whether it is open, its notes, and whether there were more than it holds.
    var stepOpen: bool
    var stepWrites: seq<Note>
    var stepOverflowed: bool
    // What the memory was when the step began.
    ghost var stepStart: Memory

    ghost predicate Valid()
      reads `entries, `nodeCount, `nodes, `owners, `pages
    {
      && WellFormed(entries, nodes, owners) && nodeCount == |nodes| && |owners| == |pages|
      && (forall p | 0 <= p < |pages| :: |pages[p]| == PAGE_SIZE)
      && (forall p | 0 <= p < |pages| :: owners[p].Serves?)
    }

    /** The memory that the table and the pages are. */
    ghost function Contents(): Memory
      reads `entries, `pages
    {
      MemoryIn(entries, pages)
    }

    /** What the step is, as a value. */
    ghost function Step(): Steps
      reads `stepOpen, `stepWrites, `stepOverflowed
    {
      Steps(stepOpen, stepWrites, stepOverflowed)
    }

    /** Whether the step can be taken back by what it has noted. */
    ghost predicate StepKept()
      reads this
    {
      Total(stepStart) && CanUndo(stepStart, Contents(), Step())
    }

    constructor ()
      ensures Valid() && Contents() == Zeros() && pages == [] && !stepOpen
    {
      entries, nodeCount, pages := map[], 1, [];
      nodes, owners := [NodeInfo(0, 0, true, 0)], [];
      stepOpen, stepWrites, stepOverflowed, stepStart := false, [], false, Zeros();
      new;
      forall a: Address ensures ByteIn(entries, pages, a) == 0 {
        NothingThere(a);
      }
      SameBytes(Contents(), Zeros());
    }

    /** The node under an entry above the last level, made if it isn't there. */
    method Child(a: Address, level: nat, node: nat) returns (child: nat)
      requires Valid() && level + 1 < LEVELS && NodeFor(entries, a, level) == Some(node)
      modifies this`entries, this`nodeCount, this`nodes
      ensures Valid() && NodeFor(entries, a, level + 1) == Some(child) && Grows(old(entries), entries)
      ensures forall b: Address :: Find(entries, b) == Find(old(entries), b)
    {
      var slot := Slot(node, IndexAt(a, level));
      if slot !in entries {
        var made := nodeCount;
        nodeCount := nodeCount + 1;
        ghost var with := nodes + [NodeInfo(level + 1, Prefix(a, level + 1), false, 0)];
        NewNode(entries, nodes, owners, with);
        LinkNode(entries, with, owners, a, level, node, made);
        entries, nodes := entries[slot := made], with[made := with[made].(linked := true)];
      }
      child := entries[slot];
    }

    /** The page under an entry of the last level, made if it isn't there. */
    method PageUnder(a: Address, node: nat) returns (p: nat)
      requires Valid() && NodeFor(entries, a, LEVELS - 1) == Some(node)
      modifies this`entries, this`pages, this`owners
      ensures Valid() && Find(entries, a) == Some(p)
      ensures Grows(old(entries), entries)
      ensures Contents() == old(Contents())
    {
      var slot := Slot(node, IndexAt(a, LEVELS - 1));
      if slot !in entries {
        var made: Page := seq(PAGE_SIZE, _ => 0);
        ghost var with := owners + [Free];
        NewPage(entries, nodes, owners, with);
        LinkPage(entries, nodes, with, a, node, |pages|);
        entries, owners := entries[slot := |pages|], with[|pages| := Serves(PageNumber(a))];
        pages := pages + [made];
        NewPageIsZeros(old(entries), entries, nodes, old(owners), old(pages), made, a);
      }
      p := entries[slot];
    }

    /** Finds the page of an address or makes one, which leaves the memory as it is. */
    method Ensure(a: Address) returns (p: nat)
      requires Valid()
      modifies this`entries, this`nodeCount, this`nodes, this`pages, this`owners
      ensures Valid() && Find(entries, a) == Some(p)
      ensures Grows(old(entries), entries)
      ensures Contents() == old(Contents())
    {
      var node := ROOT;
      for level := 0 to LEVELS - 1
        invariant Valid() && NodeFor(entries, a, level) == Some(node)
        invariant pages == old(pages) && Grows(old(entries), entries)
        invariant forall b: Address :: Find(entries, b) == Find(old(entries), b)
      {
        node := Child(a, level, node);
      }
      SameTable(old(entries), entries, pages);
      p := PageUnder(a, node);
    }

    /** Bytes into the page of an address, from it on. */
    method PutInPage(a: Address, p: nat, bytes: seq<Byte>)
      requires Valid() && Find(entries, a) == Some(p) && p < |pages| && a % PAGE_SIZE + |bytes| <= PAGE_SIZE
      modifies this`pages
      ensures Valid() && Contents() == StoreBytes(old(Contents()), a, bytes)
    {
      FindServes(entries, nodes, owners, a);
      PutStores(entries, nodes, owners, pages, p, a, bytes);
      pages := pages[p := Put(pages[p], a % PAGE_SIZE, bytes)];
    }

    /** Bytes within the word of an address. Zeros that were never written are there already, and make no page. */
    method StoreInWord(a: Address, bytes: seq<Byte>)
      requires Valid() && a % WORD_SIZE + |bytes| <= WORD_SIZE
      modifies this`entries, this`nodeCount, this`nodes, this`pages, this`owners
      ensures Valid() && Contents() == StoreBytes(old(Contents()), a, bytes)
      ensures Grows(old(entries), entries)
      ensures AllZero(bytes) ==> entries == old(entries)
    {
      WordInPage(a);
      var zero := true;
      for k := 0 to |bytes|
        invariant zero <==> AllZero(bytes[..k])
      {
        assert bytes[..k + 1] == bytes[..k] + [bytes[k]];
        zero := zero && bytes[k] == 0;
      }
      assert bytes[..|bytes|] == bytes;
      var page := Find(entries, a);
      if !zero {
        var p := Ensure(a);
        page := Some(p);
      }
      FindServes(entries, nodes, owners, a);
      if page.Some? {
        PutInPage(a, page.value, bytes);
      } else {
        ZerosAreThere(entries, pages, a, bytes);
      }
    }

    /** `size` bytes, a word at a time. A page that isn't there isn't made. */
    method Load(a: Address, size: nat) returns (bytes: seq<Byte>)
      requires Valid()
      ensures bytes == LoadBytes(Contents(), a, size)
    {
      bytes := [];
      while |bytes| != size
        invariant |bytes| <= size && bytes == LoadBytes(Contents(), a, |bytes|)
      {
        var done := |bytes|;
        var at := Wrapped(a + done);
        OnWraps(a, done);
        var offset := at % WORD_SIZE;
        var count := if WORD_SIZE - offset < size - done then WORD_SIZE - offset else size - done;
        var word := LoadWord(at);
        LoadSome(Contents(), a, bytes, WordBase(at), word, offset, count);
        bytes := bytes + word[offset..offset + count];
      }
    }

    /** The word of an address, of zeros if its page isn't there. */
    method LoadWord(a: Address) returns (word: seq<Byte>)
      requires Valid()
      ensures |word| == WORD_SIZE && Has(Contents(), WordBase(a), word)
    {
      var page := Find(entries, a);
      FindServes(entries, nodes, owners, a);
      word := if page.None? then [0, 0, 0, 0, 0, 0, 0, 0] else pages[page.value][WordAt(a)..WordAt(a) + WORD_SIZE];
      forall k | 0 <= k < WORD_SIZE ensures word[k] == Read(Contents(), WordBase(a) + k) {
        WordIsThere(entries, pages, a, k);
      }
    }

    /** Stores bytes by words, with addresses that wrap at 64 bits. */
    method Store(a: Address, bytes: seq<Byte>)
      requires Valid()
      modifies this`entries, this`nodeCount, this`nodes, this`pages, this`owners
      ensures Valid() && Contents() == StoreBytes(old(Contents()), a, bytes)
      ensures Grows(old(entries), entries)
    {
      ghost var start := Contents();
      StoreAll(start, a, bytes);
      var done := 0;
      while done != |bytes|
        invariant done <= |bytes| && Valid() && Grows(old(entries), entries)
        invariant StoreRest(Contents(), a, bytes, done) == StoreRest(start, a, bytes, 0)
      {
        var count := StoreNext(a, bytes, done);
        done := done + count;
      }
      StoreNone(Contents(), a, bytes);
    }

    /** What one word has of the bytes. */
    method StoreNext(a: Address, bytes: seq<Byte>, done: nat) returns (count: nat)
      requires Valid() && done < |bytes|
      modifies this`entries, this`nodeCount, this`nodes, this`pages, this`owners
      ensures Valid() && 0 < count && done + count <= |bytes| && Grows(old(entries), entries)
      ensures StoreRest(Contents(), a, bytes, done + count) == StoreRest(old(Contents()), a, bytes, done)
    {
      var at := Wrapped(a + done);
      OnWraps(a, done);
      var offset := at % WORD_SIZE;
      count := if WORD_SIZE - offset < |bytes| - done then WORD_SIZE - offset else |bytes| - done;
      StoreSome(Contents(), a, bytes, done, count);
      StoreInWord(at, bytes[done..done + count]);
    }

    /** How many addresses go on from one another within a word. */
    static method RunFrom(addresses: seq<Address>, index: nat) returns (run: nat)
      requires index < |addresses|
      ensures 1 <= run && index + run <= |addresses| && addresses[index] % WORD_SIZE + run <= WORD_SIZE
      ensures GoesOn(addresses[index..index + run], addresses[index])
    {
      var at := addresses[index];
      var room := WORD_SIZE - at % WORD_SIZE;
      run := 1;
      while run != room && index + run != |addresses| && addresses[index + run] == at + run
        invariant 1 <= run <= room && index + run <= |addresses|
        invariant GoesOn(addresses[index..index + run], at)
      {
        assert addresses[index..index + run + 1] == addresses[index..index + run] + [addresses[index + run]];
        run := run + 1;
      }
    }

    /** Bytes within a word, which the step is told of. */
    method StoreNoting(a: Address, bytes: seq<Byte>)
      requires Valid() && a % WORD_SIZE + |bytes| <= WORD_SIZE
      modifies this`entries, this`nodeCount, this`nodes, this`pages, this`owners, this`stepWrites, this`stepOverflowed
      ensures Valid() && Contents() == StoreBytes(old(Contents()), a, bytes)
      ensures Grows(old(entries), entries)
      ensures AllZero(bytes) ==> entries == old(entries)
      ensures Noting(old(Contents()), old(Step()), Contents(), Step())
    {
      NotingStore(Contents(), Step(), a, bytes);
      StoreInWord(a, bytes);
      NoteStep(a, |bytes|);
    }

    /** Writes pairs of an address and a byte: those next to one another in a word go in at once. */
    method WriteAll(addresses: seq<Address>, values: seq<Byte>)
      requires Valid() && |addresses| == |values|
      modifies this`entries, this`nodeCount, this`nodes, this`pages, this`owners, this`stepWrites, this`stepOverflowed
      ensures Valid() && Contents() == WritePairs(old(Contents()), addresses, values)
      ensures Grows(old(entries), entries)
      ensures Noting(old(Contents()), old(Step()), Contents(), Step()) && (old(StepKept()) ==> StepKept())
    {
      ghost var start, steps := Contents(), Step();
      Bytes.WriteAll(start, addresses, values);
      var index := 0;
      while index != |addresses|
        invariant index <= |addresses| && Valid()
        invariant Grows(old(entries), entries) && Noting(start, steps, Contents(), Step())
        invariant WriteRest(Contents(), addresses, values, index) == WriteRest(start, addresses, values, 0)
      {
        var run := WriteNext(addresses, values, index, start, steps);
        index := index + run;
      }
      Bytes.WriteAll(Contents(), addresses, values);
      KeptStill(stepStart, start, steps, Contents(), Step());
    }

    /** The pairs from an index on that go in at once. */
    method WriteNext(addresses: seq<Address>, values: seq<Byte>, index: nat, ghost start: Memory, ghost steps: Steps)
      returns (run: nat)
      requires Valid() && index < |addresses| == |values| && Noting(start, steps, Contents(), Step())
      modifies this`entries, this`nodeCount, this`nodes, this`pages, this`owners, this`stepWrites, this`stepOverflowed
      ensures Valid() && 1 <= run && index + run <= |addresses|
      ensures WriteRest(Contents(), addresses, values, index + run) == WriteRest(old(Contents()), addresses, values, index)
      ensures Grows(old(entries), entries) && Noting(start, steps, Contents(), Step())
    {
      run := RunFrom(addresses, index);
      WriteSome(Contents(), addresses, values, index, run);
      StoreNoting(addresses[index], values[index..index + run]);
      NotingBoth(start, steps, old(Contents()), old(Step()), Contents(), Step());
    }

    /** Fills a memory of its own with bytes, page by page, as far as there are addresses; a page's worth of zeros leaves
        the table alone. */
    method Fill(a: Address, bytes: seq<Byte>)
      requires Valid()
      modifies this`entries, this`nodeCount, this`nodes, this`pages, this`owners
      ensures Valid() && Contents() == StoreBytes(old(Contents()), a, Within(a, bytes))
      ensures Grows(old(entries), entries) && (AllZero(bytes) ==> entries == old(entries))
    {
      ghost var start, all := Contents(), Within(a, bytes);
      StoreAll(start, a, all);
      var done := 0;
      while done != |bytes| && a + done < WORD
        invariant done <= |all| && Valid()
        invariant Grows(old(entries), entries) && (AllZero(bytes) ==> entries == old(entries))
        invariant StoreRest(Contents(), a, all, done) == StoreRest(start, a, all, 0)
      {
        var count := FillSome(a, bytes, done);
        done := done + count;
      }
      StoreNone(Contents(), a, all);
    }

    /** What one page has of the bytes. */
    method FillSome(a: Address, bytes: seq<Byte>, done: nat) returns (count: nat)
      requires Valid() && done < |bytes| && a + done < WORD
      modifies this`entries, this`nodeCount, this`nodes, this`pages, this`owners
      ensures Valid() && 0 < count && done + count <= |Within(a, bytes)|
      ensures StoreRest(Contents(), a, Within(a, bytes), done + count)
              == StoreRest(old(Contents()), a, Within(a, bytes), done)
      ensures Grows(old(entries), entries) && (AllZero(bytes) ==> entries == old(entries))
    {
      count := ToPageEnd(a + done, |bytes| - done);
      StoreWithin(Contents(), a, bytes, done, count);
      FillPage(a + done, bytes[done..done + count]);
    }

    method FillPage(a: Address, bytes: seq<Byte>)
      requires Valid() && a % PAGE_SIZE + |bytes| <= PAGE_SIZE
      modifies this`entries, this`nodeCount, this`nodes, this`pages, this`owners
      ensures Valid() && Contents() == StoreBytes(old(Contents()), a, bytes)
      ensures Grows(old(entries), entries) && (AllZero(bytes) ==> entries == old(entries))
    {
      var page := Find(entries, a);
      if !AllZero(bytes) {
        var p := Ensure(a);
        page := Some(p);
      }
      FindServes(entries, nodes, owners, a);
      if page.Some? {
        PutInPage(a, page.value, bytes);
      } else {
        ZerosAreThere(entries, pages, a, bytes);
      }
    }

    /** Zeros in what a page has of a range, a word at a time. What is zeros already is no write. */
    method ZeroInPage(first: Address, last: Address, base: Address, p: nat)
      requires Valid() && base % PAGE_SIZE == 0 && Find(entries, base) == Some(p)
      modifies this`entries, this`nodeCount, this`nodes, this`pages, this`owners, this`stepWrites, this`stepOverflowed
      ensures Valid() && entries == old(entries)
      ensures Contents() == ZeroBytes(old(Contents()), if first > base then first else base,
                                      if last < base + PAGE_SIZE - 1 then last else base + PAGE_SIZE - 1)
      ensures Noting(old(Contents()), old(Step()), Contents(), Step())
    {
      RoomInPage(base);
      var lower := if first > base then first else base;
      var upper := if last < base + PAGE_SIZE - 1 then last else base + PAGE_SIZE - 1;
      if upper < lower {
        ZeroNone(Contents(), lower, upper);
      } else {
        ZeroWords(lower, upper);
      }
    }

    method ZeroWords(lower: Address, upper: Address)
      requires Valid() && lower <= upper
      modifies this`entries, this`nodeCount, this`nodes, this`pages, this`owners, this`stepWrites, this`stepOverflowed
      ensures Valid() && entries == old(entries)
      ensures Contents() == ZeroBytes(old(Contents()), lower, upper)
      ensures Noting(old(Contents()), old(Step()), Contents(), Step())
    {
      ghost var start := Contents();
      var at := lower;
      ZeroNone(start, lower, at - 1);
      while true
        invariant lower <= at <= upper && Valid() && entries == old(entries)
        invariant Contents() == ZeroBytes(start, lower, at - 1)
        invariant Noting(start, old(Step()), Contents(), Step())
        decreases upper - at
      {
        var wordEnd := at - at % WORD_SIZE + WORD_SIZE - 1;
        var end := if wordEnd < upper then wordEnd else upper;
        ghost var now, steps := Contents(), Step();
        ZeroInWord(at, end - at + 1, start, lower);
        NotingBoth(start, old(Step()), now, steps, Contents(), Step());
        if end == upper {
          break;
        }
        at := end + 1;
      }
    }

    /** Zeros in part of a word, if they aren't there. */
    method ZeroInWord(at: Address, count: nat, ghost start: Memory, ghost lower: Address)
      requires Valid() && at % WORD_SIZE + count <= WORD_SIZE
      requires Total(start) && lower <= at && Contents() == ZeroBytes(start, lower, at - 1)
      modifies this`entries, this`nodeCount, this`nodes, this`pages, this`owners, this`stepWrites, this`stepOverflowed
      ensures Valid() && entries == old(entries)
      ensures Contents() == ZeroBytes(start, lower, at + count - 1)
      ensures Noting(old(Contents()), old(Step()), Contents(), Step())
    {
      var word := LoadWord(at);
      var offset := at % WORD_SIZE;
      if !AllZero(word[offset..offset + count]) {
        var zeros: seq<Byte> := seq(count, _ => 0);
        StoreNoting(at, zeros);
        ZeroStored(start, lower, at, zeros);
      } else {
        HasZeros(start, lower, at, count, Contents(), word);
      }
    }

    /** Makes a stretch of the memory zero, by whichever visits fewer pages: the numbers in it, or all there are. */
    method ZeroRange(first: Address, last: Address)
      requires Valid()
      modifies this`entries, this`nodeCount, this`nodes, this`pages, this`owners, this`stepWrites, this`stepOverflowed
      ensures Valid() && entries == old(entries)
      ensures Contents() == ZeroBytes(old(Contents()), first, last)
      ensures Noting(old(Contents()), old(Step()), Contents(), Step()) && (old(StepKept()) ==> StepKept())
    {
      if last < first {
        ZeroNone(Contents(), first, last);
        return;
      }
      if PageNumber(last) - PageNumber(first) < WALK_LIMIT {
        ZeroByNumber(first, last);
      } else {
        ZeroByWalk(first, last);
      }
      KeptStill(stepStart, old(Contents()), old(Step()), Contents(), Step());
    }

    /** Zeros in what the page of an address has of a range, if it is there, as one of the pages of the range. */
    method ZeroAt(first: Address, last: Address, base: Address, ghost start: Memory, ghost steps: Steps)
      requires Valid() && base % PAGE_SIZE == 0 && Total(start) && Contents() == ZeroBefore(start, first, last, base)
      requires Noting(start, steps, Contents(), Step())
      modifies this`entries, this`nodeCount, this`nodes, this`pages, this`owners, this`stepWrites, this`stepOverflowed
      ensures Valid() && entries == old(entries)
      ensures Contents() == ZeroBefore(start, first, last, base + PAGE_SIZE)
      ensures Noting(start, steps, Contents(), Step())
    {
      var page := Find(entries, base);
      if page.Some? {
        ZeroInPage(first, last, base, page.value);
        ZeroPage(start, first, last, base, base + PAGE_SIZE);
        NotingBoth(start, steps, old(Contents()), old(Step()), Contents(), Step());
      } else {
        NoPageIsZeros(entries, pages, base);
        ZeroStays(start, Contents(), first, last, base, base + PAGE_SIZE);
      }
    }

    /** Each page number of a range in turn. */
    method ZeroByNumber(first: Address, last: Address)
      requires Valid() && first <= last
      modifies this`entries, this`nodeCount, this`nodes, this`pages, this`owners, this`stepWrites, this`stepOverflowed
      ensures Valid() && entries == old(entries)
      ensures Contents() == ZeroBytes(old(Contents()), first, last)
      ensures Noting(old(Contents()), old(Step()), Contents(), Step())
    {
      ghost var start, steps := Contents(), Step();
      var base, end := PageBase(first), PageBase(last);
      ZeroNone(start, first, if last < base then last else base - 1);
      while true
        invariant base % PAGE_SIZE == 0 && base <= end
        invariant Valid() && entries == old(entries)
        invariant Contents() == ZeroBefore(start, first, last, base) && Noting(start, steps, Contents(), Step())
        decreases end - base
      {
        ZeroAt(first, last, base, start, steps);
        if base >= end {
          break;
        }
        BaseAfter(base, last);
        base := base + PAGE_SIZE;
      }
    }

    /** Each page that there is. */
    method ZeroByWalk(first: Address, last: Address)
      requires Valid() && first <= last
      modifies this`entries, this`nodeCount, this`nodes, this`pages, this`owners, this`stepWrites, this`stepOverflowed
      ensures Valid() && entries == old(entries)
      ensures Contents() == ZeroBytes(old(Contents()), first, last)
      ensures Noting(old(Contents()), old(Step()), Contents(), Step())
    {
      ghost var start, steps := Contents(), Step();
      var found := AllPages(entries);
      ZeroNone(start, first, -1);
      for i := 0 to |found|
        invariant Valid() && entries == old(entries)
        invariant Contents() == ZeroBefore(start, first, last, DoneTo(found, i)) && Noting(start, steps, Contents(), Step())
      {
        WalkTo(entries, pages, found, i, first, last, start);
        ZeroAt(first, last, found[i].0, start, steps);
      }
      WalkTo(entries, pages, found, |found|, first, last, start);
    }

    method PutPage(base: Address, page: Page)
      requires Valid() && base % PAGE_SIZE == 0 && |page| == PAGE_SIZE
      modifies this`entries, this`nodeCount, this`nodes, this`pages, this`owners
      ensures Valid() && Contents() == StoreBytes(old(Contents()), base, page)
    {
      var p := Ensure(base);
      FindServes(entries, nodes, owners, base);
      PutInPage(base, p, page);
    }

    /** A new memory with the same contents, a page at a time. */
    method Clone() returns (copy: PagedMemory)
      requires Valid()
      ensures fresh(copy) && copy.Valid() && copy.Contents() == Contents()
    {
      copy := new PagedMemory();
      var found := AllPages(entries);
      ghost var all := Contents();
      BeforeAny(all);
      for i := 0 to |found|
        invariant fresh(copy) && copy.Valid() && copy.Contents() == Before(all, DoneTo(found, i))
      {
        var (base, p) := found[i];
        CopyNext(entries, nodes, owners, pages, found, i);
        copy.PutPage(base, pages[p]);
      }
      ZerosBetween(entries, pages, found, |found|);
      BeforeStays(all, DoneTo(found, |found|), WORD);
    }

    /** A step begins. */
    method BeginStep()
      modifies this`stepOpen, this`stepWrites, this`stepOverflowed, this`stepStart
      ensures Step() == NewStep() && stepStart == Contents() && StepKept()
    {
      stepOpen, stepWrites, stepOverflowed, stepStart := true, [], false, Contents();
    }

    method EndStep()
      modifies this`stepOpen, this`stepWrites, this`stepOverflowed
      ensures Step() == Steps(false, [], false)
    {
      stepOpen, stepWrites, stepOverflowed := false, [], false;
    }

    method NoteStep(a: Address, size: nat)
      requires a + size <= WORD
      modifies this`stepWrites, this`stepOverflowed
      ensures Step() == NoteIn(old(Step()), (a, size))
    {
      if !stepOpen || stepOverflowed {
        return;
      }
      if |stepWrites| >= STEP_LIMIT {
        stepOverflowed := true;
        stepWrites := [];
        return;
      }
      stepWrites := stepWrites + [(a, size)];
    }

    /** The addresses that the step has noted, ascending, if it is open and its log has not overflowed. To put back what
        was at these is to take the step back. */
    method StepAddresses() returns (addresses: Option<seq<Address>>)
      requires Valid()
      ensures addresses.Some? <==> stepOpen && !stepOverflowed
      ensures addresses.Some? ==> Ascending(addresses.value) && forall a: Address ::
              a in addresses.value <==> Noted(stepWrites, a)
      ensures addresses.Some? && StepKept() ==>
                && (forall a: Address | a !in addresses.value :: Read(Contents(), a) == Read(stepStart, a))
                && WritePairs(Contents(), addresses.value, BytesAt(stepStart, addresses.value)) == stepStart
    {
      if stepOverflowed || !stepOpen {
        return None;
      }
      var list := NotedAddresses(stepWrites);
      if StepKept() {
        UndoIsExact(stepStart, Contents(), stepWrites, list);
        forall a: Address | a !in list ensures Read(Contents(), a) == Read(stepStart, a) {
          assert KeptAt(stepStart, Contents(), stepWrites, a);
        }
      }
      addresses := Some(list);
    }
  }

  /** A step that can be taken back still can after what is noted. */
  lemma KeptStill(start: Memory, before: Memory, s: Steps, now: Memory, t: Steps)
    requires Noting(before, s, now, t)
    ensures CanUndo(start, before, s) ==> CanUndo(start, now, t)
  {
    if CanUndo(start, before, s) {
      NotingKeeps(start, before, s, now, t);
    }
  }

  /** Whether bytes are those of a memory from an address on, before the end of the addresses. */
  ghost predicate Has(m: Memory, a: Address, bytes: seq<Byte>)
    requires a + |bytes| <= WORD
  {
    forall k {:trigger bytes[k]} | 0 <= k < |bytes| :: bytes[k] == Read(m, a + k)
  }

  /** More of what is loaded, out of a word that has it. */
  lemma LoadSome(m: Memory, a: Address, done: seq<Byte>, base: Address, word: seq<Byte>, offset: nat, count: nat)
    requires done == LoadBytes(m, a, |done|) && base + |word| <= WORD && Has(m, base, word)
    requires offset + count <= |word| && 0 < count && base + offset == On(a, |done|)
    ensures done + word[offset..offset + count] == LoadBytes(m, a, |done| + count)
  {
    var at := On(a, |done|);
    var more := LoadBytes(m, at, count);
    forall k | 0 <= k < count ensures more[k] == word[offset + k] {
      LoadBytesAt(m, at, count, k);
      OnWithin(at, k);
      assert word[offset + k] == Read(m, base + (offset + k));
    }
    assert more == word[offset..offset + count];
    LoadBytesSplit(m, a, |done|, count);
  }

  lemma NewNode(entries: Entries, nodes: seq<NodeInfo>, owners: seq<PageInfo>, with: seq<NodeInfo>)
    requires WellFormed(entries, nodes, owners) && nodes <= with
    ensures WellFormed(entries, with, owners)
  {
    forall slot | slot in entries ensures Entry(entries, with, owners, slot) {
      assert Entry(entries, nodes, owners, slot);
    }
  }

  lemma NewPage(entries: Entries, nodes: seq<NodeInfo>, owners: seq<PageInfo>, with: seq<PageInfo>)
    requires WellFormed(entries, nodes, owners) && owners <= with
    ensures WellFormed(entries, nodes, with)
  {
    forall slot | slot in entries ensures Entry(entries, nodes, with, slot) {
      assert Entry(entries, nodes, owners, slot);
    }
  }

  /** The memory that a table and pages are. */
  ghost function MemoryIn(entries: Entries, pages: seq<Page>): (m: Memory)
    ensures Total(m) && forall a: Address {:trigger Read(m, a)} :: Read(m, a) == ByteIn(entries, pages, a)
  {
    imap a: Address | 0 <= a < WORD :: ByteIn(entries, pages, a)
  }

  lemma SameTable(entries: Entries, more: Entries, pages: seq<Page>)
    requires forall a: Address :: Find(more, a) == Find(entries, a)
    ensures MemoryIn(more, pages) == MemoryIn(entries, pages)
  {
    SameBytes(MemoryIn(more, pages), MemoryIn(entries, pages));
  }

  lemma NewPageIsZeros(entries: Entries, more: Entries, nodes: seq<NodeInfo>, owners: seq<PageInfo>,
                       pages: seq<Page>, made: Page, a: Address)
    requires WellFormed(entries, nodes, owners) && |owners| == |pages| && |made| == PAGE_SIZE
    requires forall k | 0 <= k < PAGE_SIZE :: made[k] == 0
    requires Find(entries, a) == None
    requires forall b: Address ::
             Find(more, b) == if PageNumber(b) == PageNumber(a) then Some(|pages|) else Find(entries, b)
    ensures MemoryIn(more, pages + [made]) == MemoryIn(entries, pages)
  {
    forall b: Address ensures ByteIn(more, pages + [made], b) == ByteIn(entries, pages, b) {
      FindServes(entries, nodes, owners, b);
      FindByNumber(entries, a, b);
    }
    SameBytes(MemoryIn(more, pages + [made]), MemoryIn(entries, pages));
  }

  lemma PutStores(entries: Entries, nodes: seq<NodeInfo>, owners: seq<PageInfo>, pages: seq<Page>, p: nat,
                  a: Address, bytes: seq<Byte>)
    requires WellFormed(entries, nodes, owners) && Find(entries, a) == Some(p)
    requires p < |pages| && |pages[p]| == PAGE_SIZE && a % PAGE_SIZE + |bytes| <= PAGE_SIZE
    ensures MemoryIn(entries, pages[p := Put(pages[p], a % PAGE_SIZE, bytes)])
            == StoreBytes(MemoryIn(entries, pages), a, bytes)
  {
    var before, after := MemoryIn(entries, pages), MemoryIn(entries, pages[p := Put(pages[p], a % PAGE_SIZE, bytes)]);
    RoomInPage(a);
    StoreBytesTotal(before, a, bytes);
    forall b: Address ensures Read(after, b) == Read(StoreBytes(before, a, bytes), b) {
      PutByte(entries, nodes, owners, pages, p, a, bytes, b);
      StoreBytesAt(before, a, bytes, b);
    }
    SameBytes(after, StoreBytes(before, a, bytes));
  }

  lemma ZerosAreThere(entries: Entries, pages: seq<Page>, a: Address, bytes: seq<Byte>)
    requires a % PAGE_SIZE + |bytes| <= PAGE_SIZE && Find(entries, a).None?
    requires AllZero(bytes)
    ensures MemoryIn(entries, pages) == StoreBytes(MemoryIn(entries, pages), a, bytes)
  {
    var m := MemoryIn(entries, pages);
    RoomInPage(a);
    StoreBytesTotal(m, a, bytes);
    forall b: Address ensures Read(m, b) == Read(StoreBytes(m, a, bytes), b) {
      StoreBytesAt(m, a, bytes, b);
      InPage(a, b, |bytes|);
      FindByNumber(entries, a, b);
    }
    SameBytes(m, StoreBytes(m, a, bytes));
  }

  predicate AllZero(bytes: seq<Byte>) {
    forall k | 0 <= k < |bytes| :: bytes[k] == 0
  }

  /** Zeros that a word has are there already. */
  lemma HasZeros(m: Memory, lower: Address, at: Address, count: nat, now: Memory, word: seq<Byte>)
    requires Total(m) && lower <= at && at % WORD_SIZE + count <= WORD_SIZE == |word|
    requires now == ZeroBytes(m, lower, at - 1) && Has(now, WordBase(at), word)
    requires AllZero(word[at % WORD_SIZE..at % WORD_SIZE + count])
    ensures now == ZeroBytes(m, lower, at + count - 1)
  {
    forall a: Address | at <= a < at + count ensures Read(m, a) == 0 {
      assert word[a - WordBase(at)] == word[at % WORD_SIZE..at % WORD_SIZE + count][a - at];
      assert Read(now, WordBase(at) + (a - WordBase(at))) == 0;
    }
    ZeroThere(m, lower, at, count);
  }

  lemma NoPageIsZeros(entries: Entries, pages: seq<Page>, base: Address)
    requires base % PAGE_SIZE == 0 && Find(entries, base).None?
    ensures forall a: Address | base <= a < base + PAGE_SIZE :: Read(MemoryIn(entries, pages), a) == 0
  {
    forall a: Address | base <= a < base + PAGE_SIZE ensures Read(MemoryIn(entries, pages), a) == 0 {
      InPage(base, a, PAGE_SIZE);
      FindByNumber(entries, a, base);
    }
  }

  /** From the end of one page of a list to the next there are zeros. */
  lemma ZerosBetween(entries: Entries, pages: seq<Page>, found: seq<Found>, i: nat)
    requires Lists(entries, found, 0, WORD) && i <= |found|
    ensures i < |found| ==> found[i].0 % PAGE_SIZE == 0 && Find(entries, found[i].0) == Some(found[i].1)
    ensures i < |found| ==> found[i].0 + PAGE_SIZE <= WORD
    ensures DoneTo(found, i) <= if i < |found| then found[i].0 else WORD
    ensures forall a: Address | DoneTo(found, i) <= a < if i < |found| then found[i].0 else WORD ::
            Read(MemoryIn(entries, pages), a) == 0
  {
    if i < |found| {
      assert IsPage(entries, found[i], 0, WORD);
      RoomInPage(found[i].0);
      PagesApart(entries, found, i);
    } else if i > 0 {
      assert IsPage(entries, found[i - 1], 0, WORD);
      RoomInPage(found[i - 1].0);
    }
    forall a: Address | DoneTo(found, i) <= a < if i < |found| then found[i].0 else WORD
      ensures Read(MemoryIn(entries, pages), a) == 0 {
      NoPageBetween(entries, found, i, a);
    }
  }

  /** What is zeros as far as one page of a list is so as far as the next. */
  lemma WalkTo(
      entries: Entries, pages: seq<Page>, found: seq<Found>, i: nat, first: Address, last: Address, start: Memory)
    requires Lists(entries, found, 0, WORD) && i <= |found| && Total(start)
    requires MemoryIn(entries, pages) == ZeroBefore(start, first, last, DoneTo(found, i))
    ensures i < |found| ==> found[i].0 % PAGE_SIZE == 0 && found[i].0 + PAGE_SIZE <= WORD
    ensures MemoryIn(entries, pages) == ZeroBefore(start, first, last, if i < |found| then found[i].0 else WORD)
  {
    ZerosBetween(entries, pages, found, i);
    ZeroStays(start, MemoryIn(entries, pages), first, last, DoneTo(found, i), if i < |found| then found[i].0 else WORD);
  }

  /** How many bytes of some are in the page of an address. */
  function ToPageEnd(a: Address, size: nat): (count: nat)
    requires size > 0
    ensures 0 < count <= size && a % PAGE_SIZE + count <= PAGE_SIZE && a + count <= WORD
  {
    if PAGE_SIZE - a % PAGE_SIZE < size then PAGE_SIZE - a % PAGE_SIZE else size
  }

  /** Those of the bytes from an address on that are before the end of the addresses. */
  function Within(a: Address, bytes: seq<Byte>): seq<Byte> {
    if a + |bytes| <= WORD then bytes else bytes[..WORD - a]
  }

  /** A part of what fills a memory, and what is left after it. */
  lemma StoreWithin(m: Memory, a: Address, bytes: seq<Byte>, done: nat, count: nat)
    requires done + count <= |bytes| && a + done + count <= WORD && count > 0
    ensures var all := Within(a, bytes);
            && done + count <= |all|
            && StoreRest(StoreBytes(m, a + done, bytes[done..done + count]), a, all, done + count) == StoreRest(m, a, all, done)
    ensures AllZero(bytes) ==> AllZero(bytes[done..done + count])
  {
    var all := Within(a, bytes);
    assert all[done..done + count] == bytes[done..done + count];
    OnWithin(a, done);
    StoreSome(m, a, all, done, count);
  }

  /** What a memory has before some address, and zeros from there on. */
  ghost function Before(m: Memory, end: nat): Memory {
    imap a: Address | a in m :: if a < end then m[a] else 0
  }

  lemma BeforeAny(m: Memory)
    requires Total(m)
    ensures Before(m, 0) == Zeros() && Before(m, WORD) == m
  {
    SameBytes(Before(m, 0), Zeros());
    SameBytes(Before(m, WORD), m);
  }

  lemma BeforeStays(m: Memory, low: nat, high: nat)
    requires Total(m) && low <= high && forall a: Address | low <= a < high :: Read(m, a) == 0
    ensures Before(m, low) == Before(m, high)
  {
    forall a: Address ensures Read(Before(m, low), a) == Read(Before(m, high), a) {
      assert low <= a < high ==> Read(m, a) == 0;
    }
    SameBytes(Before(m, low), Before(m, high));
  }

  lemma BeforePage(m: Memory, base: Address, page: Page)
    requires Total(m) && base + |page| <= WORD && Has(m, base, page)
    ensures StoreBytes(Before(m, base), base, page) == Before(m, base + |page|)
  {
    var stored := StoreBytes(Before(m, base), base, page);
    StoreBytesTotal(Before(m, base), base, page);
    forall a: Address ensures Read(stored, a) == Read(Before(m, base + |page|), a) {
      StoreBytesAt(Before(m, base), base, page, a);
      if base <= a < base + |page| {
        assert page[a - base] == Read(m, base + (a - base));
      }
    }
    SameBytes(stored, Before(m, base + |page|));
  }

  /** The next page of a list is what a copy of those before it goes on with. */
  lemma CopyNext(entries: Entries, nodes: seq<NodeInfo>, owners: seq<PageInfo>, pages: seq<Page>, found: seq<Found>, i: nat)
    requires WellFormed(entries, nodes, owners) && |owners| == |pages| && forall p | 0 <= p < |pages| ::
             |pages[p]| == PAGE_SIZE
    requires Lists(entries, found, 0, WORD) && i < |found|
    ensures found[i].1 < |pages| && found[i].0 % PAGE_SIZE == 0
    ensures var all := MemoryIn(entries, pages);
            StoreBytes(Before(all, DoneTo(found, i)), found[i].0, pages[found[i].1]) == Before(all, DoneTo(found, i + 1))
  {
    var (base, p) := found[i];
    ZerosBetween(entries, pages, found, i);
    BeforeStays(MemoryIn(entries, pages), DoneTo(found, i), base);
    FindServes(entries, nodes, owners, base);
    PageIsThere(entries, pages, base);
    BeforePage(MemoryIn(entries, pages), base, pages[p]);
  }

  lemma PageIsThere(entries: Entries, pages: seq<Page>, base: Address)
    requires base % PAGE_SIZE == 0 && Find(entries, base).Some? && Find(entries, base).value < |pages|
    requires |pages[Find(entries, base).value]| == PAGE_SIZE && base + PAGE_SIZE <= WORD
    ensures Has(MemoryIn(entries, pages), base, pages[Find(entries, base).value])
  {
    var page := pages[Find(entries, base).value];
    forall k | 0 <= k < PAGE_SIZE ensures page[k] == Read(MemoryIn(entries, pages), base + k) {
      InPage(base, base + k, PAGE_SIZE);
      FindByNumber(entries, base, base + k);
    }
  }
}
