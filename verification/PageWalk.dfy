/** A walk over the pages that there are, by ascending address (native/paged_memory.h:124-138, 380-381), and the zeros
    that a range of addresses is made to have, a page at a time. */
module PageWalk {
  import opened Basics
  import opened PageTable
  import opened Bytes

  /** A page where it is found, by the first address of it. */
  type Found = (Address, nat)

  /** Whether pages are in order, and are all that there are from one address to before another. */
  ghost predicate Lists(entries: Entries, found: seq<Found>, low: nat, high: nat) {
    && (forall i {:trigger IsPage(entries, found[i], low, high)} | 0 <= i < |found| ::
        IsPage(entries, found[i], low, high))
    && (forall i, j {:trigger InOrder(found, i, j)} | 0 <= i < j < |found| :: InOrder(found, i, j))
    && (forall a: Address {:trigger Listed(entries, found, a)} | low <= a < high :: Listed(entries, found, a))
  }

  ghost predicate InOrder(found: seq<Found>, i: nat, j: nat)
    requires i < |found| && j < |found|
  {
    found[i].0 < found[j].0
  }

  ghost predicate Listed(entries: Entries, found: seq<Found>, a: Address) {
    Find(entries, a).Some? ==> (PageBase(a), Find(entries, a).value) in found
  }

  ghost predicate IsPage(entries: Entries, page: Found, low: nat, high: nat) {
    low <= page.0 < high && page.0 % PAGE_SIZE == 0 && Find(entries, page.0) == Some(page.1)
  }

  function PageBase(a: Address): Address { a - a % PAGE_SIZE }

  lemma BaseAfter(base: Address, last: Address)
    requires base % PAGE_SIZE == 0 && base < PageBase(last)
    ensures base + PAGE_SIZE <= PageBase(last) && (base + PAGE_SIZE) % PAGE_SIZE == 0
  {
  }

  lemma ListsMore(entries: Entries, found: seq<Found>, more: seq<Found>, low: nat, middle: nat, high: nat)
    requires low <= middle <= high && Lists(entries, found, low, middle) && Lists(entries, more, middle, high)
    ensures Lists(entries, found + more, low, high)
  {
    forall i | 0 <= i < |found + more| ensures IsPage(entries, (found + more)[i], low, high) {
      if i < |found| {
        assert IsPage(entries, found[i], low, middle);
      } else {
        assert IsPage(entries, more[i - |found|], middle, high);
      }
    }
    forall i, j | 0 <= i < j < |found + more| ensures InOrder(found + more, i, j) {
      if j < |found| {
        assert InOrder(found, i, j);
      } else if |found| <= i {
        assert InOrder(more, i - |found|, j - |found|);
      } else {
        assert IsPage(entries, found[i], low, middle) && IsPage(entries, more[j - |found|], middle, high);
      }
    }
    forall a: Address | low <= a < high ensures Listed(entries, found + more, a) {
      assert a < middle ==> Listed(entries, found, a);
      assert middle <= a ==> Listed(entries, more, a);
    }
  }

  /** The addresses under an entry are those with its index. */
  lemma UnderEntry(base: nat, level: nat, q: nat, index: nat, a: Address)
    requires level < LEVELS && base == q * Span(level) && index < FANOUT
    requires base + index * Span(level + 1) <= a < base + (index + 1) * Span(level + 1)
    ensures IndexAt(a, level) == index
  {
    var small := Span(level + 1);
    assert Span(level) == FANOUT * small;
    assert base + index * small == (q * FANOUT + index) * small;
    Quotient(a, small, q * FANOUT + index, a - (base + index * small));
  }

  lemma AllUnderEntry(base: nat, level: nat, q: nat, index: nat)
    requires level < LEVELS && base == q * Span(level) && index < FANOUT
    ensures AllAt(level, index, base + index * Span(level + 1), base + (index + 1) * Span(level + 1))
  {
    forall a: Address | base + index * Span(level + 1) <= a < base + (index + 1) * Span(level + 1)
      ensures IndexAt(a, level) == index {
      UnderEntry(base, level, q, index, a);
    }
  }

  /** The bases of the entries of a node are multiples of what each spans. */
  lemma BaseOfEntry(base: nat, level: nat, q: nat, index: nat)
    requires level < LEVELS && base == q * Span(level) && index < FANOUT && base + Span(level) <= WORD
    ensures base + index * Span(level + 1) == (q * FANOUT + index) * Span(level + 1)
    ensures base + (index + 1) * Span(level + 1) <= base + Span(level)
  {
    assert Span(level) == FANOUT * Span(level + 1);
    assert (index + 1) * Span(level + 1) <= FANOUT * Span(level + 1);
  }

  ghost predicate Under(entries: Entries, a: Address, level: nat, node: nat)
    requires level < LEVELS
  {
    NodeFor(entries, a, level) == Some(node)
  }

  ghost predicate AllUnder(entries: Entries, level: nat, node: nat, low: nat, high: nat)
    requires level < LEVELS
  {
    forall a: Address {:trigger Under(entries, a, level, node)} | low <= a < high :: Under(entries, a, level, node)
  }

  ghost predicate AllAt(level: nat, index: nat, low: nat, high: nat)
    requires level < LEVELS
  {
    forall a: Address {:trigger IndexAt(a, level)} | low <= a < high :: IndexAt(a, level) == index
  }

  /** The pages under a node, each entry in turn. */
  method Visit(entries: Entries, node: nat, level: nat, base: nat, ghost q: nat) returns (found: seq<Found>)
    requires level < LEVELS && base == q * Span(level) && base + Span(level) <= WORD
    requires AllUnder(entries, level, node, base, base + Span(level))
    ensures Lists(entries, found, base, base + Span(level))
    decreases LEVELS - level
  {
    found := [];
    var span := Span(level + 1);
    for index := 0 to FANOUT
      invariant base + index * span <= WORD
      invariant Lists(entries, found, base, base + index * span)
    {
      BaseOfEntry(base, level, q, index);
      AllUnderEntry(base, level, q, index);
      var from := base + index * span;
      var more := VisitEntry(entries, node, level, index, from, q * FANOUT + index);
      ListsMore(entries, found, more, base, from, from + span);
      found := found + more;
    }
    assert FANOUT * span == Span(level);
  }

  method VisitEntry(entries: Entries, node: nat, level: nat, index: nat, from: Address, ghost q: nat)
    returns (found: seq<Found>)
    requires level < LEVELS && from == q * Span(level + 1) && from + Span(level + 1) <= WORD && index < FANOUT
    requires AllUnder(entries, level, node, from, from + Span(level + 1))
    requires AllAt(level, index, from, from + Span(level + 1))
    ensures Lists(entries, found, from, from + Span(level + 1))
    decreases LEVELS - level, 0
  {
    var slot := Slot(node, index);
    var to := from + Span(level + 1);
    if slot !in entries {
      found := [];
      NothingListed(entries, node, level, index, from, to);
    } else if level + 1 == LEVELS {
      found := [(from, entries[slot])];
      PageListed(entries, node, index, from, q);
    } else {
      ChildBelow(entries, node, level, index, from, to);
      found := Visit(entries, entries[slot], level + 1, from, q);
    }
  }

  lemma NothingListed(entries: Entries, node: nat, level: nat, index: nat, low: nat, high: nat)
    requires level < LEVELS && high <= WORD && Slot(node, index) !in entries
    requires AllUnder(entries, level, node, low, high) && AllAt(level, index, low, high)
    ensures Lists(entries, [], low, high)
  {
    forall a: Address | low <= a < high ensures Find(entries, a).None? {
      assert Under(entries, a, level, node) && IndexAt(a, level) == index;
      NothingUnder(entries, a, level);
    }
  }

  lemma ChildBelow(entries: Entries, node: nat, level: nat, index: nat, low: nat, high: nat)
    requires level + 1 < LEVELS && high <= WORD && Slot(node, index) in entries
    requires AllUnder(entries, level, node, low, high) && AllAt(level, index, low, high)
    ensures AllUnder(entries, level + 1, entries[Slot(node, index)], low, high)
  {
    var below, child := level + 1, entries[Slot(node, index)];
    forall a: Address | low <= a < high ensures Under(entries, a, below, child) {
      assert Under(entries, a, level, node) && IndexAt(a, level) == index;
    }
  }

  lemma PageListed(entries: Entries, node: nat, index: nat, base: Address, q: nat)
    requires base == q * PAGE_SIZE && base + PAGE_SIZE <= WORD && Slot(node, index) in entries
    requires AllUnder(entries, LEVELS - 1, node, base, base + PAGE_SIZE)
             && AllAt(LEVELS - 1, index, base, base + PAGE_SIZE)
    ensures Lists(entries, [(base, entries[Slot(node, index)])], base, base + PAGE_SIZE)
  {
    var p := entries[Slot(node, index)];
    forall a: Address | base <= a < base + PAGE_SIZE ensures Find(entries, a) == Some(p) {
      assert Under(entries, a, LEVELS - 1, node) && IndexAt(a, LEVELS - 1) == index;
    }
    PageIsListed(entries, base, q, p);
  }

  lemma PageIsListed(entries: Entries, base: Address, q: nat, p: nat)
    requires base == q * PAGE_SIZE && base + PAGE_SIZE <= WORD
    requires forall a: Address | base <= a < base + PAGE_SIZE :: Find(entries, a) == Some(p)
    ensures Lists(entries, [(base, p)], base, base + PAGE_SIZE)
  {
    Quotient(base, PAGE_SIZE, q, 0);
    assert IsPage(entries, (base, p), base, base + PAGE_SIZE);
    forall a: Address | base <= a < base + PAGE_SIZE ensures Listed(entries, [(base, p)], a) {
      Quotient(a, PAGE_SIZE, q, a - base);
    }
  }

  /** Each page there is. */
  method AllPages(entries: Entries) returns (found: seq<Found>)
    ensures Lists(entries, found, 0, WORD)
  {
    found := Visit(entries, ROOT, 0, 0, 0);
  }

  // ---------- Zeros as far as some address ----------

  /** Zeros at the addresses of a range that are before some address. */
  ghost function ZeroBefore(m: Memory, first: Address, last: Address, end: nat): Memory {
    ZeroBytes(m, first, if last < end then last else end - 1)
  }

  /** Where a range has only zeros already, there is nothing to do. */
  lemma ZeroSkips(m: Memory, first: Address, last: Address, low: nat, high: nat)
    requires Total(m) && low <= high
    requires forall a: Address | first <= a <= last && low <= a < high :: Read(m, a) == 0
    ensures ZeroBefore(m, first, last, low) == ZeroBefore(m, first, last, high)
  {
    forall a: Address ensures Read(ZeroBefore(m, first, last, low), a) == Read(ZeroBefore(m, first, last, high), a) {
      if first <= a <= last && low <= a < high {
        assert Read(m, a) == 0;
      }
    }
    SameBytes(ZeroBefore(m, first, last, low), ZeroBefore(m, first, last, high));
  }

  /** Zeros in what a range has of a page go on from those before it. */
  lemma ZeroPage(m: Memory, first: Address, last: Address, base: nat, high: nat)
    requires Total(m) && base <= high
    ensures ZeroBytes(ZeroBefore(m, first, last, base), if first > base then first else base,
                      if last < high - 1 then last else high - 1)
            == ZeroBefore(m, first, last, high)
  {
    var z := ZeroBytes(ZeroBefore(m, first, last, base), if first > base then first else base,
                       if last < high - 1 then last else high - 1);
    forall a: Address ensures Read(z, a) == Read(ZeroBefore(m, first, last, high), a) {}
    SameBytes(z, ZeroBefore(m, first, last, high));
  }

  lemma ZeroNone(m: Memory, first: int, last: int)
    requires last < first
    ensures ZeroBytes(m, first, last) == m
  {
  }

  /** Zeros that are stored after others that they go on from. */
  lemma ZeroStored(m: Memory, first: Address, at: Address, zeros: seq<Byte>)
    requires Total(m) && first <= at && at + |zeros| <= WORD && forall i | 0 <= i < |zeros| :: zeros[i] == 0
    ensures StoreBytes(ZeroBytes(m, first, at - 1), at, zeros) == ZeroBytes(m, first, at + |zeros| - 1)
  {
    var z, s := ZeroBytes(m, first, at - 1), StoreBytes(ZeroBytes(m, first, at - 1), at, zeros);
    StoreBytesTotal(z, at, zeros);
    forall a: Address ensures Read(s, a) == Read(ZeroBytes(m, first, at + |zeros| - 1), a) {
      StoreBytesAt(z, at, zeros, a);
    }
    SameBytes(s, ZeroBytes(m, first, at + |zeros| - 1));
  }

  /** Zeros that are there already, after others that they go on from. */
  lemma ZeroThere(m: Memory, first: Address, at: Address, count: nat)
    requires Total(m) && first <= at && at + count <= WORD
    requires forall a: Address | at <= a < at + count :: Read(m, a) == 0
    ensures ZeroBytes(m, first, at - 1) == ZeroBytes(m, first, at + count - 1)
  {
    var z, s := ZeroBytes(m, first, at - 1), ZeroBytes(m, first, at + count - 1);
    forall a: Address ensures Read(z, a) == Read(s, a) {
      if at <= a < at + count {
        assert Read(m, a) == 0;
      }
    }
    SameBytes(z, s);
  }

  /** As far as zeros have got that are zeros already from there on. */
  lemma ZeroStays(m: Memory, now: Memory, first: Address, last: Address, low: nat, high: nat)
    requires Total(m) && low <= high && now == ZeroBefore(m, first, last, low)
    requires forall a: Address | low <= a < high :: Read(now, a) == 0
    ensures now == ZeroBefore(m, first, last, high)
  {
    forall a: Address | first <= a <= last && low <= a < high ensures Read(m, a) == 0 {
      assert Read(now, a) == 0;
    }
    ZeroSkips(m, first, last, low, high);
  }

  /** Where the first pages of a list end. */
  function DoneTo(found: seq<Found>, i: nat): nat
    requires i <= |found|
  {
    if i == 0 then 0 else found[i - 1].0 + PAGE_SIZE
  }

  /** Between the pages of a list there are none. */
  lemma NoPageBetween(entries: Entries, found: seq<Found>, i: nat, a: Address)
    requires Lists(entries, found, 0, WORD) && i <= |found|
    requires DoneTo(found, i) <= a && (i < |found| ==> a < found[i].0)
    ensures Find(entries, a).None?
  {
    forall j | 0 <= j < |found| ensures found[j].0 != PageBase(a) {
      assert j < i - 1 ==> InOrder(found, j, i - 1);
      assert i < j ==> InOrder(found, i, j);
    }
    assert Listed(entries, found, a);
  }

  lemma PagesApart(entries: Entries, found: seq<Found>, i: nat)
    requires Lists(entries, found, 0, WORD) && i < |found|
    ensures DoneTo(found, i) <= found[i].0
  {
    if i > 0 {
      assert IsPage(entries, found[i - 1], 0, WORD) && IsPage(entries, found[i], 0, WORD);
      assert InOrder(found, i - 1, i);
      assert found[i - 1].0 / PAGE_SIZE < found[i].0 / PAGE_SIZE;
    }
  }
}
