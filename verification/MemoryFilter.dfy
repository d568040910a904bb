/** Ranges where accesses are let through without their observer (native/bap_jit.cpp:128-166, 1713-1754). */
module MemoryFilter {
  import opened Basics
  import opened PageTable

  datatype Range = Range(first: Address, last: Address, readQuiet: bool, writeQuiet: bool) {
    predicate Has(a: Address) { first <= a <= last }

    predicate LetsThrough(write: bool) { if write then writeQuiet else readQuiet }

    /** Whether all of an access is in the range, and of a kind that it lets through. An access of no bytes isn't, nor is
        one past the end of the addresses. */
    predicate Quiets(a: Address, size: nat, write: bool) {
      0 < size && first <= a && a + size - 1 <= last && ((write && writeQuiet) || (!write && readQuiet))
    }
  }

  predicate Apart(r: Range, s: Range) { r.last < s.first || s.last < r.first }

  /** Ranges that have addresses are apart just if no address is in both. */
  lemma ApartShareNone(r: Range, s: Range)
    requires r.first <= r.last && s.first <= s.last
    ensures Apart(r, s) <==> forall a: Address :: !(r.Has(a) && s.Has(a))
  {
    if !Apart(r, s) {
      var a := if r.first < s.first then s.first else r.first;
      assert r.Has(a) && s.Has(a);
    }
  }

  /** Ranges that have addresses, by the first of each, none with an address of another. */
  ghost predicate InOrder(ranges: seq<Range>) {
    && (forall i | 0 <= i < |ranges| :: ranges[i].first <= ranges[i].last)
    && (forall i, j | 0 <= i < j < |ranges| :: ranges[i].last < ranges[j].first)
  }

  /** Whether a range of a filter lets an access through. */
  ghost predicate Quiet(ranges: seq<Range>, a: Address, size: nat, write: bool) {
    exists r <- ranges :: r.Quiets(a, size, write)
  }

  /** An access that is quiet in one range isn't in any other. */
  lemma QuietInOne(ranges: seq<Range>, r: Range, s: Range, a: Address, size: nat, write: bool)
    requires InOrder(ranges) && r in ranges && s in ranges && r != s && r.Quiets(a, size, write)
    ensures !s.Quiets(a, size, write)
  {
    var i :| 0 <= i < |ranges| && ranges[i] == r;
    var j :| 0 <= j < |ranges| && ranges[j] == s;
    if i < j {
      assert ranges[i].last < ranges[j].first;
    } else {
      assert ranges[j].last < ranges[i].first;
    }
  }

  /** Of the ranges that start no later than an access, the last is the only one that may have it. */
  lemma LastBefore(ranges: seq<Range>, after: nat, r: Range, a: Address, size: nat, write: bool)
    requires InOrder(ranges) && 0 < after <= |ranges| && ranges[after - 1].first <= a
    requires forall i | after <= i < |ranges| :: a < ranges[i].first
    requires r in ranges && r != ranges[after - 1]
    ensures !r.Quiets(a, size, write)
  {
    var i :| 0 <= i < |ranges| && ranges[i] == r;
    if i < after {
      assert ranges[i].last < ranges[after - 1].first;
    }
  }

  /** A range that is apart from those around its place goes in there. */
  lemma PutsIn(ranges: seq<Range>, after: nat, range: Range)
    requires InOrder(ranges) && after <= |ranges| && range.first <= range.last
    requires after > 0 ==> ranges[after - 1].last < range.first
    requires after < |ranges| ==> range.last < ranges[after].first
    ensures InOrder(ranges[..after] + [range] + ranges[after..])
  {
    var more := ranges[..after] + [range] + ranges[after..];
    forall i, j | 0 <= i < j < |more| ensures more[i].last < more[j].first {
      if j < after {
        assert more[i] == ranges[i] && more[j] == ranges[j];
      } else if j == after {
        assert i < after - 1 ==> ranges[i].last < ranges[after - 1].first;
      } else if i > after {
        assert more[i] == ranges[i - 1] && more[j] == ranges[j - 1];
      } else {
        assert more[j] == ranges[j - 1];
        assert after < j - 1 ==> ranges[after].last < ranges[j - 1].first;
        assert i < after ==> ranges[i].last < ranges[j - 1].first;
      }
    }
  }

  lemma ApartFromAll(ranges: seq<Range>, after: nat, range: Range, r: Range)
    requires InOrder(ranges) && after <= |ranges| && r in ranges
    requires after > 0 ==> ranges[after - 1].last < range.first
    requires after < |ranges| ==> range.last < ranges[after].first
    ensures Apart(r, range)
  {
    var i :| 0 <= i < |ranges| && ranges[i] == r;
    assert i < after - 1 ==> ranges[i].last < ranges[after - 1].first;
    assert after < i ==> ranges[after].last < ranges[i].first;
  }

  lemma TakesOut(ranges: seq<Range>, i: nat)
    requires InOrder(ranges) && i < |ranges|
    ensures InOrder(ranges[..i] + ranges[i + 1..])
  {
    var less := ranges[..i] + ranges[i + 1..];
    forall j, k | 0 <= j < k < |less| ensures less[j].last < less[k].first {
      var a, b := if j < i then j else j + 1, if k < i then k else k + 1;
      assert less[j] == ranges[a] && less[k] == ranges[b];
    }
  }

  lemma TakenOut(ranges: seq<Range>, i: nat, r: Range)
    requires InOrder(ranges) && i < |ranges|
    ensures r in ranges[..i] + ranges[i + 1..] <==> r in ranges && r.first != ranges[i].first
  {
    if r in ranges[..i] + ranges[i + 1..] {
      var j :| 0 <= j < |ranges| && ranges[j] == r && j != i;
      assert j < i ==> ranges[j].last < ranges[i].first;
      assert i < j ==> ranges[i].last < ranges[j].first;
    }
  }

  class MemoryFilter {
    var ranges: seq<Range>

    ghost predicate Valid()
      reads this
    {
      InOrder(ranges)
    }

    constructor ()
      ensures Valid() && ranges == []
    {
      ranges := [];
    }

    /** The place of the first range that starts after an address. */
    method UpperBound(a: Address) returns (after: nat)
      requires Valid()
      ensures after <= |ranges|
      ensures forall i | 0 <= i < after :: ranges[i].first <= a
      ensures forall i | after <= i < |ranges| :: a < ranges[i].first
    {
      after := 0;
      while after < |ranges| && ranges[after].first <= a
        invariant after <= |ranges| && forall i | 0 <= i < after :: ranges[i].first <= a
      {
        after := after + 1;
      }
      if after < |ranges| {
        forall i | after < i < |ranges| ensures a < ranges[i].first {
          assert ranges[after].last < ranges[i].first;
        }
      }
    }

    /** The range that lets an access through, if there is one: just when some range does. */
    method QuietRange(a: Address, size: nat, write: bool) returns (range: Option<Range>)
      requires Valid() && size < WORD
      ensures range.Some? <==> Quiet(ranges, a, size, write)
      ensures range.Some? ==> range.value in ranges && range.value.Quiets(a, size, write)
    {
      if size == 0 {
        return None;
      }
      var last := Wrapped(a + size - 1);
      if last < a {
        return None;
      }
      assert last == a + size - 1;
      var after := UpperBound(a);
      if after == 0 {
        forall r | r in ranges ensures !r.Quiets(a, size, write) {
          var i :| 0 <= i < |ranges| && ranges[i] == r;
        }
        return None;
      }
      var before := ranges[after - 1];
      forall r | r in ranges && r != before ensures !r.Quiets(a, size, write) {
        LastBefore(ranges, after, r, a, size, write);
      }
      range := if last <= before.last && before.LetsThrough(write) then Some(before) else None;
      assert before in ranges && (range.Some? <==> before.Quiets(a, size, write));
    }

    /** Puts in a range that has addresses and shares none with those there; and nothing otherwise. */
    method Insert(range: Range) returns (ok: bool)
      requires Valid()
      modifies this
      ensures Valid()
      ensures ok <==> range.first <= range.last && forall r <- old(ranges) :: Apart(r, range)
      ensures forall r :: r in ranges <==> r in old(ranges) || (ok && r == range)
    {
      if range.last < range.first {
        return false;
      }
      var after := UpperBound(range.first);
      if after < |ranges| && ranges[after].first <= range.last {
        assert !Apart(ranges[after], range);
        return false;
      }
      if after > 0 && ranges[after - 1].last >= range.first {
        assert !Apart(ranges[after - 1], range);
        return false;
      }
      PutsIn(ranges, after, range);
      forall r | r in ranges ensures Apart(r, range) {
        ApartFromAll(ranges, after, range, r);
      }
      assert ranges == ranges[..after] + ranges[after..];
      ranges := ranges[..after] + [range] + ranges[after..];
      ok := true;
    }

    /** Takes out the range that starts at an address, if there is one. */
    method Erase(first: Address)
      requires Valid()
      modifies this
      ensures Valid()
      ensures forall r :: r in ranges <==> r in old(ranges) && r.first != first
    {
      var i := 0;
      while i < |ranges| && ranges[i].first != first
        invariant i <= |ranges| && forall j | 0 <= j < i :: ranges[j].first != first
      {
        i := i + 1;
      }
      if i < |ranges| {
        TakesOut(ranges, i);
        forall r ensures r in ranges[..i] + ranges[i + 1..] <==> r in ranges && r.first != first {
          TakenOut(ranges, i, r);
        }
        ranges := ranges[..i] + ranges[i + 1..];
      }
    }

    /** Removes ranges by where they start, and inserts others one after another, until one has an address of another that
        is there by then: true just if none has. Whatever comes of it, the ranges are in order and apart. */
    method Update(removed: seq<Address>, given: seq<Range>) returns (ok: bool, ghost kept: seq<Range>)
      requires Valid()
      modifies this
      ensures Valid()
      ensures forall r :: r in kept <==> r in old(ranges) && r.first !in removed
      ensures ok <==> AllApart(kept, given)
      ensures forall r <- ranges :: r in given || r in kept
      ensures ok ==> forall r :: r in ranges <==> r in given || r in kept
    {
      for i := 0 to |removed|
        invariant Valid()
        invariant forall r :: r in ranges <==> r in old(ranges) && r.first !in removed[..i]
      {
        assert removed[..i + 1] == removed[..i] + [removed[i]];
        Erase(removed[i]);
      }
      assert removed[..|removed|] == removed;
      kept := ranges;
      for i := 0 to |given|
        invariant Valid() && AllApart(kept, given[..i])
        invariant forall r :: r in ranges <==> r in given[..i] || r in kept
      {
        ghost var before := ranges;
        assert given[..i + 1] == given[..i] + [given[i]];
        ok := Insert(given[i]);
        OneMoreApart(kept, given, i, before);
        if !ok {
          return;
        }
      }
      assert given[..|given|] == given;
      ok := true;
    }
  }

  /** Whether ranges that are given have addresses, and none has one of another of them or of those that are kept. */
  ghost predicate AllApart(kept: seq<Range>, given: seq<Range>) {
    forall i | 0 <= i < |given| :: FitsIn(kept, given, i)
  }

  ghost predicate FitsIn(kept: seq<Range>, given: seq<Range>, i: nat)
    requires i < |given|
  {
    && given[i].first <= given[i].last
    && (forall j | 0 <= j < i :: Apart(given[j], given[i]))
    && (forall r <- kept :: Apart(r, given[i]))
  }

  lemma OneMoreApart(kept: seq<Range>, given: seq<Range>, i: nat, before: seq<Range>)
    requires i < |given| && AllApart(kept, given[..i])
    requires forall r :: r in before <==> r in given[..i] || r in kept
    ensures FitsIn(kept, given, i) <==> given[i].first <= given[i].last && forall r <- before :: Apart(r, given[i])
    ensures FitsIn(kept, given, i) ==> AllApart(kept, given[..i + 1])
    ensures !FitsIn(kept, given, i) ==> !AllApart(kept, given)
  {
    var some, more := given[..i], given[..i + 1];
    forall j | 0 <= j < i ensures given[j] in before && FitsIn(kept, more, j) {
      assert FitsIn(kept, some, j) && some[j] == given[j];
      forall k | 0 <= k < j ensures Apart(more[k], more[j]) {
        assert Apart(some[k], some[j]);
      }
    }
    if FitsIn(kept, given, i) {
      assert FitsIn(kept, more, i) by {
        forall j | 0 <= j < i ensures Apart(more[j], more[i]) {
          assert Apart(given[j], given[i]);
        }
      }
      forall r | r in before ensures Apart(r, given[i]) {
        if r in given[..i] {
          var j :| 0 <= j < i && given[..i][j] == r;
          assert Apart(given[j], given[i]);
        }
      }
    }
  }
}
