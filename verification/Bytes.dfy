/** What a guest memory is: a total map from addresses of 64 bits to bytes, 0 where nothing was written, that is written
    a byte at a time (obligations 7 and 14 of Bap/Jit.lean). What does more at once is to come to the same as this. */
module Bytes {
  import opened Basics
  import opened PageTable

  type Memory = imap<Address, Byte>

  /** What a memory is before anything is written to it. */
  ghost function Zeros(): Memory { imap a: Address | 0 <= a < WORD :: ZeroAt(a) }

  function ZeroAt(a: Address): Byte { 0 }

  ghost function Read(m: Memory, a: Address): Byte { if a in m then m[a] else 0 }

  ghost function Write(m: Memory, a: Address, b: Byte): Memory { m[a := b] }

  /** Whether a memory has a byte at every address. */
  ghost predicate Total(m: Memory) {
    forall a: Address :: a in m
  }

  lemma SameBytes(m: Memory, n: Memory)
    requires Total(m) && Total(n) && forall a: Address :: Read(m, a) == Read(n, a)
    ensures m == n
  {
    forall a: Address ensures m[a] == n[a] {
      assert Read(m, a) == Read(n, a);
    }
  }

  /** The address after, which for the last is the first. */
  function Next(a: Address): Address { if a + 1 == WORD then 0 else a + 1 }

  /** The address some way on. */
  function On(a: Address, k: nat): Address
    decreases k
  {
    if k == 0 then a else On(Next(a), k - 1)
  }

  lemma {:induction false} OnWraps(a: Address, k: nat)
    ensures On(a, k) == Wrapped(a + k)
    decreases k
  {
    if k > 0 {
      OnWraps(Next(a), k - 1);
    }
  }

  /** Bytes from an address on, one after another. */
  ghost function StoreBytes(m: Memory, a: Address, bytes: seq<Byte>): Memory
    decreases |bytes|
  {
    if bytes == [] then m else StoreBytes(Write(m, a, bytes[0]), Next(a), bytes[1..])
  }

  /** Pairs of an address and a byte, in order. */
  ghost function WritePairs(m: Memory, addresses: seq<Address>, values: seq<Byte>): Memory
    requires |addresses| == |values|
    decreases |addresses|
  {
    if addresses == [] then m else WritePairs(Write(m, addresses[0], values[0]), addresses[1..], values[1..])
  }

  /** Bytes from an address on, one after another. */
  ghost function LoadBytes(m: Memory, a: Address, size: nat): (bytes: seq<Byte>)
    ensures |bytes| == size
    decreases size
  {
    if size == 0 then [] else [Read(m, a)] + LoadBytes(m, Next(a), size - 1)
  }

  lemma {:induction false} LoadBytesSplit(m: Memory, a: Address, j: nat, k: nat)
    ensures LoadBytes(m, a, j + k) == LoadBytes(m, a, j) + LoadBytes(m, On(a, j), k)
    decreases j
  {
    if j > 0 {
      LoadBytesSplit(m, Next(a), j - 1, k);
    }
  }

  lemma {:induction false} LoadBytesAt(m: Memory, a: Address, size: nat, k: nat)
    requires k < size
    ensures LoadBytes(m, a, size)[k] == Read(m, On(a, k))
    decreases k
  {
    if k > 0 {
      LoadBytesAt(m, Next(a), size - 1, k - 1);
    }
  }

  lemma {:induction false} OnWithin(a: Address, k: nat)
    requires a + k < WORD
    ensures On(a, k) == a + k
    decreases k
  {
    if k > 0 {
      OnWithin(Next(a), k - 1);
    }
  }

  lemma {:induction false} OnOn(a: Address, j: nat, k: nat)
    ensures On(On(a, j), k) == On(a, j + k)
    decreases j
  {
    if j > 0 {
      OnOn(Next(a), j - 1, k);
    }
  }

  /** A memory made zero within two bounds, both included. */
  ghost function ZeroBytes(m: Memory, first: int, last: int): Memory {
    imap a: Address | a in m :: if first <= a <= last then 0 else m[a]
  }

  lemma {:induction false} StoreBytesTotal(m: Memory, a: Address, bytes: seq<Byte>)
    requires Total(m)
    ensures Total(StoreBytes(m, a, bytes))
    decreases |bytes|
  {
    if bytes != [] {
      StoreBytesTotal(Write(m, a, bytes[0]), Next(a), bytes[1..]);
    }
  }

  /** Bytes that don't wrap change just their own addresses. */
  lemma {:induction false} StoreBytesAt(m: Memory, a: Address, bytes: seq<Byte>, at: Address)
    requires a + |bytes| <= WORD
    ensures Read(StoreBytes(m, a, bytes), at) == if a <= at < a + |bytes| then bytes[at - a] else Read(m, at)
    decreases |bytes|
  {
    if |bytes| > 1 {
      StoreBytesAt(Write(m, a, bytes[0]), a + 1, bytes[1..], at);
    }
  }

  lemma {:induction false} StoreBytesSplit(m: Memory, a: Address, bytes: seq<Byte>, k: nat)
    requires k <= |bytes|
    ensures StoreBytes(m, a, bytes) == StoreBytes(StoreBytes(m, a, bytes[..k]), On(a, k), bytes[k..])
    decreases |bytes|
  {
    if k == 0 {
      assert bytes[..0] == [] && bytes[0..] == bytes;
    } else {
      var first, rest := Write(m, a, bytes[0]), bytes[1..];
      var head, tail := bytes[..k], bytes[k..];
      StoreBytesSplit(first, Next(a), rest, k - 1);
      assert head[1..] == rest[..k - 1] && tail == rest[k - 1..];
      assert StoreBytes(m, a, head) == StoreBytes(first, Next(a), head[1..]);
    }
  }

  /** What a memory comes to once the bytes that are left are stored. */
  ghost function StoreRest(m: Memory, a: Address, bytes: seq<Byte>, done: nat): Memory
    requires done <= |bytes|
  {
    StoreBytes(m, On(a, done), bytes[done..])
  }

  lemma StoreAll(m: Memory, a: Address, bytes: seq<Byte>)
    ensures StoreRest(m, a, bytes, 0) == StoreBytes(m, a, bytes)
  {
    assert bytes[0..] == bytes;
  }

  lemma StoreNone(m: Memory, a: Address, bytes: seq<Byte>)
    ensures StoreRest(m, a, bytes, |bytes|) == m
  {
  }

  lemma StoreSome(m: Memory, a: Address, bytes: seq<Byte>, done: nat, count: nat)
    requires done + count <= |bytes|
    ensures StoreRest(StoreBytes(m, On(a, done), bytes[done..done + count]), a, bytes, done + count)
            == StoreRest(m, a, bytes, done)
  {
    var left := bytes[done..];
    assert left[..count] == bytes[done..done + count] && left[count..] == bytes[done + count..];
    OnOn(a, done, count);
    StoreBytesSplit(m, On(a, done), left, count);
  }

  lemma {:induction false} WritePairsSplit(m: Memory, addresses: seq<Address>, values: seq<Byte>, k: nat)
    requires |addresses| == |values| && k <= |addresses|
    ensures WritePairs(m, addresses, values)
            == WritePairs(WritePairs(m, addresses[..k], values[..k]), addresses[k..], values[k..])
    decreases k
  {
    if k == 0 {
      assert addresses[0..] == addresses && values[0..] == values;
    } else {
      var first, others, rest := Write(m, addresses[0], values[0]), addresses[1..], values[1..];
      WritePairsSplit(first, others, rest, k - 1);
      assert addresses[..k][1..] == others[..k - 1] && values[..k][1..] == rest[..k - 1];
      assert addresses[k..] == others[k - 1..] && values[k..] == rest[k - 1..];
    }
  }

  /** Whether addresses go on from one another. */
  predicate GoesOn(addresses: seq<Address>, a: Address) {
    forall i | 0 <= i < |addresses| :: addresses[i] == a + i
  }

  /** Pairs that go on from each other are bytes from the first on. */
  lemma {:induction false} WriteRun(m: Memory, a: Address, addresses: seq<Address>, values: seq<Byte>)
    requires |addresses| == |values| && GoesOn(addresses, a)
    ensures WritePairs(m, addresses, values) == StoreBytes(m, a, values)
    decreases |addresses|
  {
    if |addresses| > 0 {
      var first, others, rest := Write(m, a, values[0]), addresses[1..], values[1..];
      forall i | 0 <= i < |others| ensures others[i] == Next(a) + i {
        assert addresses[i + 1] == a + (i + 1);
      }
      WriteRun(first, Next(a), others, rest);
      assert addresses[0] == a + 0;
      assert WritePairs(m, addresses, values) == WritePairs(first, others, rest);
    }
  }

  /** What a memory comes to once the pairs that are left are written. */
  ghost function WriteRest(m: Memory, addresses: seq<Address>, values: seq<Byte>, done: nat): Memory
    requires |addresses| == |values| && done <= |addresses|
  {
    WritePairs(m, addresses[done..], values[done..])
  }

  lemma WriteAll(m: Memory, addresses: seq<Address>, values: seq<Byte>)
    requires |addresses| == |values|
    ensures WriteRest(m, addresses, values, 0) == WritePairs(m, addresses, values)
    ensures WriteRest(m, addresses, values, |addresses|) == m
  {
    assert addresses[0..] == addresses && values[0..] == values;
  }

  lemma WriteSome(m: Memory, addresses: seq<Address>, values: seq<Byte>, done: nat, count: nat)
    requires |addresses| == |values| && 0 < count && done + count <= |addresses|
    requires GoesOn(addresses[done..done + count], addresses[done])
    ensures WriteRest(StoreBytes(m, addresses[done], values[done..done + count]), addresses, values, done + count)
            == WriteRest(m, addresses, values, done)
  {
    var others, rest := addresses[done..], values[done..];
    assert others[..count] == addresses[done..done + count] && others[count..] == addresses[done + count..];
    assert rest[..count] == values[done..done + count] && rest[count..] == values[done + count..];
    WritePairsSplit(m, others, rest, count);
    WriteRun(m, addresses[done], others[..count], rest[..count]);
  }
}
