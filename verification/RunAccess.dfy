/** What the accesses and the code sites of a run come to, byte by byte and call by call (native/bap_jit.cpp:234-290,
    343-406, 925-1037; obligations 2, 3 and 7 of Bap/Jit.lean), apart from how a run of them is worked out. */
module RunAccess {
  import opened Basics
  import opened PageTable
  import opened Bytes
  import opened Endian
  import opened MemoryFilter
  import opened RunSpec

  // ---------- Values and their bytes ----------

  /** A byte of a value, by its weight. */
  function ByteOf(value: nat, weight: nat): Byte { value / Power2(8 * weight) % 256 }

  /** The weight of a byte of so many, by its place: the least comes first, or last. */
  function Weight(size: nat, k: nat, big: bool): nat
    requires k < size
  {
    if big then size - 1 - k else k
  }

  lemma {:induction false} PowerIs(n: nat)
    ensures Power(n) == Power2(8 * n)
    decreases n
  {
    if n > 0 {
      PowerIs(n - 1);
      EightTimes(8 * (n - 1));
    }
  }

  lemma EightTimes(k: nat)
    ensures Power2(k + 8) == 256 * Power2(k)
  {
    assert Power2(k + 8) == 2 * Power2(k + 7) && Power2(k + 7) == 2 * Power2(k + 6) && Power2(k + 6) == 2 * Power2(k + 5);
    assert Power2(k + 5) == 2 * Power2(k + 4) && Power2(k + 4) == 2 * Power2(k + 3) && Power2(k + 3) == 2 * Power2(k + 2);
    assert Power2(k + 2) == 2 * Power2(k + 1) && Power2(k + 1) == 2 * Power2(k);
  }

  lemma DividedTwice(x: nat, p: nat)
    requires p > 0
    ensures x / (256 * p) == x / 256 / p
  {
    var high, low := x / 256, x % 256;
    var q, r := high / p, high % p;
    assert high == q * p + r;
    Regrouped(q, p);
    Quotient(x, 256 * p, q, 256 * r + low);
  }

  lemma Regrouped(q: nat, p: nat)
    ensures q * (256 * p) == 256 * (q * p)
  {
  }

  lemma ByteAbove(value: nat, k: nat)
    requires k > 0
    ensures ByteOf(value, k) == ByteOf(value / 256, k - 1)
  {
    EightTimes(8 * (k - 1));
    DividedTwice(value, Power2(8 * (k - 1)));
  }

  lemma {:induction false} LittleByte(value: nat, size: nat, k: nat)
    requires k < size
    ensures Little(value, size)[k] == ByteOf(value, k)
    decreases size
  {
    if k > 0 {
      ByteAbove(value, k);
      LittleByte(value / 256, size - 1, k - 1);
    }
  }

  lemma {:induction false} LittleValueByte(bytes: seq<Byte>, k: nat)
    requires k < |bytes|
    ensures ByteOf(LittleValue(bytes), k) == bytes[k]
    decreases |bytes|
  {
    var rest := LittleValue(bytes[1..]);
    Quotient(bytes[0] + 256 * rest, 256, rest, bytes[0]);
    if k > 0 {
      ByteAbove(LittleValue(bytes), k);
      LittleValueByte(bytes[1..], k - 1);
    }
  }

  /** The value of bytes in an order has each of them at its weight, and no more. */
  lemma ValueHasBytes(bytes: seq<Byte>, big: bool)
    ensures ValueOf(bytes, big) < Power2(8 * |bytes|)
    ensures forall k | 0 <= k < |bytes| :: ByteOf(ValueOf(bytes, big), Weight(|bytes|, k, big)) == bytes[k]
  {
    PowerIs(|bytes|);
    forall k | 0 <= k < |bytes| ensures ByteOf(ValueOf(bytes, big), Weight(|bytes|, k, big)) == bytes[k] {
      LittleValueByte(if big then Reversed(bytes) else bytes, Weight(|bytes|, k, big));
    }
  }

  lemma BytesHaveValue(value: nat, size: nat, big: bool, k: nat)
    requires k < size
    ensures BytesOf(value, size, big)[k] == ByteOf(value, Weight(size, k, big))
  {
    LittleByte(value, size, Weight(size, k, big));
  }

  // ---------- Bytes in the memory, over the end of the addresses ----------

  lemma OnApart(a: Address, k: nat)
    requires 0 < k < WORD
    ensures On(a, k) != a
  {
    OnWraps(a, k);
  }

  /** Bytes that are stored are there, each at its address, and at the others is what was. */
  lemma {:induction false} StoredAt(m: Memory, a: Address, bytes: seq<Byte>, b: Address)
    requires |bytes| <= WORD
    ensures forall k | 0 <= k < |bytes| && On(a, k) == b :: Read(StoreBytes(m, a, bytes), b) == bytes[k]
    ensures (forall k | 0 <= k < |bytes| :: On(a, k) != b) ==> Read(StoreBytes(m, a, bytes), b) == Read(m, b)
    decreases |bytes|
  {
    if bytes != [] {
      var next, rest := Next(a), bytes[1..];
      StoredAt(Write(m, a, bytes[0]), next, rest, b);
      forall k | 0 < k < |bytes| ensures On(a, k) == On(next, k - 1) && On(a, k) != a {
        OnApart(a, k);
      }
      assert On(a, 0) == a;
      if b == a {
        forall k | 0 <= k < |rest| ensures On(next, k) != b {
          assert On(a, k + 1) == On(next, k);
        }
      } else {
        forall k | 0 <= k < |bytes| && On(a, k) == b ensures Read(StoreBytes(m, a, bytes), b) == bytes[k] {
          assert On(next, k - 1) == b;
        }
        if forall k | 0 <= k < |bytes| :: On(a, k) != b {
          forall k | 0 <= k < |rest| ensures On(next, k) != b {
            assert On(a, k + 1) == On(next, k);
          }
        }
      }
    }
  }

  /** Of pairs that are written, the last of an address stays there. */
  lemma {:induction false} LastPairStays(m: Memory, addresses: seq<Address>, values: seq<Byte>, a: Address)
    requires |addresses| == |values|
    ensures forall k | 0 <= k < |addresses| && addresses[k] == a && a !in addresses[k + 1..] ::
              Read(WritePairs(m, addresses, values), a) == values[k]
    ensures a !in addresses ==> Read(WritePairs(m, addresses, values), a) == Read(m, a)
    decreases |addresses|
  {
    if addresses != [] {
      var others, rest := addresses[1..], values[1..];
      LastPairStays(Write(m, addresses[0], values[0]), others, rest, a);
      forall k | 0 < k < |addresses| ensures addresses[k + 1..] == others[k..] && addresses[k] == others[k - 1] {}
      forall k | 0 <= k < |addresses| && addresses[k] == a && a !in addresses[k + 1..]
        ensures Read(WritePairs(m, addresses, values), a) == values[k] {
        if k > 0 {
          assert others[k - 1] == a && a !in others[k..];
        }
      }
    }
  }

  // ---------- Loads and stores ----------

  /** A load gives the value of the bytes that the memory has from its address on, in its order, and 0 once the run has
      failed. */
  lemma LoadHasBytes(setting: Setting, run: Run, a: Address, size: nat, big: bool)
    requires Fair(setting)
    ensures var (after, value) := Load(setting, run, a, size, big);
            if after.failed then value == 0
            else
              && value < Power2(8 * size)
              && forall k | 0 <= k < size :: ByteOf(value, Weight(size, k, big)) == Read(after.memory, On(a, k))
  {
    var (after, value) := Load(setting, run, a, size, big);
    if !after.failed {
      var bytes := LoadBytes(after.memory, a, size);
      ValueHasBytes(bytes, big);
      forall k | 0 <= k < size ensures bytes[k] == Read(after.memory, On(a, k)) {
        LoadBytesAt(after.memory, a, size, k);
      }
    }
  }

  /** A store leaves the bytes of its value from its address on, in its order, and the others as they were once its observer
      was told; and nothing once the run has failed. */
  lemma StoreHasBytes(setting: Setting, run: Run, a: Address, size: nat, big: bool, value: nat, b: Address)
    requires Fair(setting) && 1 <= size <= 8
    ensures var told, after := Notify(setting, run, true, a, size, value), Store(setting, run, a, size, big, value);
            if told.failed then after == told
            else
              && (forall k | 0 <= k < size && On(a, k) == b :: Read(after.memory, b) == ByteOf(value, Weight(size, k, big)))
              && ((forall k | 0 <= k < size :: On(a, k) != b) ==> Read(after.memory, b) == Read(told.memory, b))
  {
    var told := Notify(setting, run, true, a, size, value);
    var bytes := BytesOf(value, size, big);
    StoredAt(told.memory, a, bytes, b);
    forall k | 0 <= k < size ensures bytes[k] == ByteOf(value, Weight(size, k, big)) {
      BytesHaveValue(value, size, big, k);
    }
  }

  lemma LoadsWhatIsStored(m: Memory, a: Address, bytes: seq<Byte>)
    requires |bytes| <= WORD
    ensures LoadBytes(StoreBytes(m, a, bytes), a, |bytes|) == bytes
  {
    var stored := StoreBytes(m, a, bytes);
    var loaded := LoadBytes(stored, a, |bytes|);
    forall k | 0 <= k < |bytes| ensures loaded[k] == bytes[k] {
      LoadBytesAt(stored, a, |bytes|, k);
      StoredAt(m, a, bytes, On(a, k));
    }
  }

  /** What is stored is loaded, in whichever order, as its low bytes, where nothing observes the memory. */
  lemma StoreThenLoadRun(setting: Setting, run: Run, a: Address, size: nat, big: bool, value: nat)
    requires Fair(setting) && !setting.observesMemory && !run.failed && 1 <= size <= 8
    ensures Loads(setting, run, [StoreOp(a, size, big, value), LoadOp(a, size, big)]) == [value % Power2(8 * size)]
  {
    var ops := [StoreOp(a, size, big, value), LoadOp(a, size, big)];
    var stored := Store(setting, run, a, size, big, value);
    LoadsWhatIsStored(run.memory, a, BytesOf(value, size, big));
    StoreThenLoad(value, size, big);
    PowerIs(size);
    assert ops[1..] == [LoadOp(a, size, big)] && ops[1..][1..] == [];
    assert Loads(setting, run, ops) == [] + Loads(setting, stored, ops[1..]);
    assert Loads(setting, stored, ops[1..]) == LoadedBy(setting, stored, ops[1]) + Loads(setting, stored, []);
  }

  /** Whether a run goes through operations with none that stops it. */
  ghost predicate GoesThrough(setting: Setting, run: Run, ops: seq<Operation>)
    requires Fair(setting)
    decreases |ops|
  {
    ops == [] || (!Apply(setting, run, ops[0]).1 && GoesThrough(setting, Apply(setting, run, ops[0]).0, ops[1..]))
  }

  /** What a run loads, in order: each load adds one value, of the bytes that the memory has at that point of the run. */
  lemma {:induction false} EachLoadHasBytes(
      setting: Setting, run: Run, ops: seq<Operation>, a: Address, size: nat, big: bool) returns (value: nat)
    requires Fair(setting) && GoesThrough(setting, run, ops)
    ensures Loads(setting, run, ops + [LoadOp(a, size, big)]) == Loads(setting, run, ops) + [value]
    ensures var after := Load(setting, Execute(setting, run, ops), a, size, big).0;
            if after.failed then value == 0
            else
              && value < Power2(8 * size)
              && forall k | 0 <= k < size :: ByteOf(value, Weight(size, k, big)) == Read(after.memory, On(a, k))
    decreases |ops|
  {
    var op := LoadOp(a, size, big);
    var all := ops + [op];
    if ops == [] {
      assert all[1..] == [] && all[0] == op;
      LoadHasBytes(setting, run, a, size, big);
      value := Load(setting, run, a, size, big).1;
    } else {
      assert all[1..] == ops[1..] + [op] && all[0] == ops[0];
      value := EachLoadHasBytes(setting, Apply(setting, run, ops[0]).0, ops[1..], a, size, big);
    }
  }

  // ---------- What observers are told ----------

  /** Whether a range lets an access through that has all of its bytes, in the range and before the end of the addresses. */
  ghost predicate IsQuiet(setting: Setting, ranges: seq<Range>, write: bool, a: Address, size: nat) {
    && setting.filtered && size > 0
    && exists r <- ranges :: r.first <= a && a + size - 1 <= r.last && (if write then r.writeQuiet else r.readQuiet)
  }

  /** What a call of an observer makes of a run: what it throws, writes and lets through from then on. */
  ghost predicate Replied(before: Run, after: Run, reply: Reply)
    requires |reply.addresses| == |reply.values|
  {
    && after.failed == reply.failed && after.ranges == reply.ranges
    && after.memory == WritePairs(before.memory, reply.addresses, reply.values)
    && after.written == before.written && after.lastSite == before.lastSite && after.dropped == before.dropped
  }

  /** What becomes of an access: nothing is told of one that is quiet, or that nothing observes, or once the run has failed;
      otherwise its observer is, of what it is, with the memory before it; after a site that waited, unless that stops. */
  ghost predicate IsTold(setting: Setting, run: Run, told: Run, write: bool, a: Address, size: nat, value: nat)
    requires Fair(setting)
  {
    var n, reply := |run.calls|, setting.replies(|run.calls|);
    if run.failed || !setting.observesMemory || IsQuiet(setting, run.ranges, write, a, size) then told == run
    else
      && told.leanRan && told.pending.None?
      && if run.pending.None? then
           && told.calls == run.calls + [MemoryCall(run.lastSite, write, a, size, value, run.memory)]
           && Replied(run, told, reply)
         else if reply.failed || reply.stop then
           && told.calls == run.calls + [CodeCall(run.pending.value, run.memory)]
           && told.failed && Replied(run, told.(failed := reply.failed), reply)
         else
           var seen := WritePairs(run.memory, reply.addresses, reply.values);
           && told.calls == run.calls + [CodeCall(run.pending.value, run.memory),
                                         MemoryCall(run.lastSite, write, a, size, value, seen)]
           && Replied(run.(memory := seen), told, setting.replies(n + 1))
  }

  lemma AccessIsTold(setting: Setting, run: Run, write: bool, a: Address, size: nat, value: nat)
    requires Fair(setting)
    ensures IsTold(setting, run, Notify(setting, run, write, a, size, value), write, a, size, value)
  {
    assert setting.filtered && Quiet(run.ranges, a, size, write) <==> IsQuiet(setting, run.ranges, write, a, size);
    var reply, told := setting.replies(|run.calls|), Notify(setting, run, write, a, size, value);
    if !run.failed && setting.observesMemory && !IsQuiet(setting, run.ranges, write, a, size) && run.pending.Some? {
      if !(reply.failed || reply.stop) {
        var call, seen := CodeCall(run.pending.value, run.memory), WritePairs(run.memory, reply.addresses, reply.values);
        assert run.calls + [call] + [MemoryCall(run.lastSite, write, a, size, value, seen)]
               == run.calls + [call, MemoryCall(run.lastSite, write, a, size, value, seen)];
      }
    }
  }

  /** Each access of a run is told so, and then made: a load changes nothing more, and a store changes the memory and what
      the run says it wrote, and nothing else. */
  lemma EachAccessIsTold(setting: Setting, run: Run, op: Operation) returns (told: Run)
    requires Fair(setting) && (op.LoadOp? || op.StoreOp?)
    ensures IsTold(setting, run, told, op.StoreOp?, op.address, op.size, if op.StoreOp? then op.value else 0)
    ensures var (next, stops) := Apply(setting, run, op);
            && !stops && (op.LoadOp? || told.failed ==> next == told)
            && next == told.(memory := next.memory, written := next.written)
  {
    var value := if op.StoreOp? then op.value else 0;
    told := Notify(setting, run, op.StoreOp?, op.address, op.size, value);
    AccessIsTold(setting, run, op.StoreOp?, op.address, op.size, value);
  }

  /** Each code site of a run: it does nothing once the run has failed but stop it; it is passed and no more where nothing
      observes code; it waits where it would only set the pc and no Lean code has run; and otherwise it is told. */
  lemma EachSiteIsTold(setting: Setting, run: Run, pc: Address)
    requires Fair(setting)
    ensures var (next, stops) := Apply(setting, run, SiteOp(pc));
            var passed, reply := run.(lastSite := Some(pc), dropped := false), setting.replies(|run.calls|);
            if run.failed then next == run && stops
            else if !setting.observesCode then next == passed && !stops
            else if setting.quietSites && !run.leanRan then next == passed.(pending := Some(pc)) && !stops
            else
              && next.calls == run.calls + [CodeCall(pc, run.memory)] && Replied(passed, next, reply)
              && next.leanRan == run.leanRan && next.pending == run.pending && (stops <==> reply.failed || reply.stop)
  {
  }
}
