/** What a step of the guest remembers, to be taken back if it fails (native/paged_memory.h:55-58, 269-315): the
    places of its writes. What was at them is known to whoever takes it back. */
module StepLog {
  import opened Basics
  import opened PageTable
  import opened Bytes

  /** The place of a write and how many bytes it has. */
  type Note = note: (Address, nat) | note.0 + note.1 <= WORD witness (0, 0)

  /** The most that a step remembers. */
  const STEP_LIMIT: nat := 0x40_0000

  /** Whether a step is open, its notes, and whether they were too many. */
  datatype Steps = Steps(open: bool, notes: seq<Note>, overflowed: bool)

  function NoteIn(steps: Steps, note: Note): Steps {
    if !steps.open || steps.overflowed then steps
    else if |steps.notes| >= STEP_LIMIT then steps.(notes := [], overflowed := true)
    else steps.(notes := steps.notes + [note])
  }

  function NoteAll(steps: Steps, notes: seq<Note>): Steps
    decreases |notes|
  {
    if notes == [] then steps else NoteIn(NoteAll(steps, notes[..|notes| - 1]), notes[|notes| - 1])
  }

  function NewStep(): Steps { Steps(true, [], false) }

  /** A step remembers all there was, up to the limit, and from the first that is over it, nothing, until another begins. */
  lemma {:induction false} StepRemembers(notes: seq<Note>)
    ensures NoteAll(NewStep(), notes) == if |notes| <= 4194304 then Steps(true, notes, false) else Steps(true, [], true)
    decreases |notes|
  {
    if notes != [] {
      StepRemembers(notes[..|notes| - 1]);
      assert notes[..|notes| - 1] + [notes[|notes| - 1]] == notes;
    }
  }

  ghost predicate Covers(note: Note, a: Address) {
    note.0 <= a < note.0 + note.1
  }

  ghost predicate Noted(notes: seq<Note>, a: Address) {
    exists i | 0 <= i < |notes| :: Covers(notes[i], a)
  }

  /** Whether every byte that isn't noted is as it was. */
  ghost predicate KeptOutside(start: Memory, now: Memory, notes: seq<Note>) {
    forall a: Address {:trigger KeptAt(start, now, notes, a)} :: KeptAt(start, now, notes, a)
  }

  ghost predicate KeptAt(start: Memory, now: Memory, notes: seq<Note>, a: Address) {
    !Noted(notes, a) ==> Read(now, a) == Read(start, a)
  }

  /** A step can be taken back: what it hasn't noted is as it was, unless it has said that there was too much. */
  ghost predicate CanUndo(start: Memory, now: Memory, steps: Steps) {
    steps.open && !steps.overflowed ==> KeptOutside(start, now, steps.notes)
  }

  /** Whether what a memory became is noted: what isn't is as it was, and no note was forgotten but by saying so. */
  ghost predicate Noting(before: Memory, s: Steps, now: Memory, t: Steps) {
    && t.open == s.open && (s.overflowed ==> t.overflowed) && (!t.overflowed ==> s.notes <= t.notes)
    && CanUndo(before, now, t)
  }

  lemma NotedStill(notes: seq<Note>, more: seq<Note>, a: Address)
    requires notes <= more && Noted(notes, a)
    ensures Noted(more, a)
  {
    var i :| 0 <= i < |notes| && Covers(notes[i], a);
    assert Covers(more[i], a);
  }

  /** What can be taken back still can after what is noted. */
  lemma NotingKeeps(start: Memory, before: Memory, s: Steps, now: Memory, t: Steps)
    requires CanUndo(start, before, s) && Noting(before, s, now, t)
    ensures CanUndo(start, now, t)
  {
    if t.open && !t.overflowed {
      forall a: Address ensures KeptAt(start, now, t.notes, a) {
        assert KeptAt(start, before, s.notes, a) && KeptAt(before, now, t.notes, a);
        if Noted(s.notes, a) {
          NotedStill(s.notes, t.notes, a);
        }
      }
    }
  }

  lemma NotingBoth(start: Memory, r: Steps, before: Memory, s: Steps, now: Memory, t: Steps)
    requires Noting(start, r, before, s) && Noting(before, s, now, t)
    ensures Noting(start, r, now, t)
  {
    NotingKeeps(start, before, s, now, t);
  }

  /** Bytes that are stored and noted. */
  lemma NotingStore(now: Memory, steps: Steps, a: Address, bytes: seq<Byte>)
    requires a + |bytes| <= WORD
    ensures Noting(now, steps, StoreBytes(now, a, bytes), NoteIn(steps, (a, |bytes|)))
  {
    var next, noted := StoreBytes(now, a, bytes), NoteIn(steps, (a, |bytes|));
    if noted.open && !noted.overflowed {
      assert noted.notes[|steps.notes|] == (a, |bytes|);
      forall b: Address ensures KeptAt(now, next, noted.notes, b) {
        StoreBytesAt(now, a, bytes, b);
        if a <= b < a + |bytes| {
          assert Covers(noted.notes[|steps.notes|], b);
        }
      }
    }
  }

  // ---------- Taking a step back ----------

  ghost predicate Ascending(list: seq<Address>) {
    forall i, j | 0 <= i < j < |list| :: list[i] < list[j]
  }

  /** The bytes of a memory at addresses. */
  ghost function BytesAt(m: Memory, list: seq<Address>): seq<Byte> {
    seq(|list|, i requires 0 <= i < |list| => Read(m, list[i]))
  }

  lemma {:induction false} WriteBack(start: Memory, now: Memory, list: seq<Address>, a: Address)
    ensures Read(WritePairs(now, list, BytesAt(start, list)), a) == if a in list then Read(start, a) else Read(now, a)
    decreases |list|
  {
    if list != [] {
      var first := Write(now, list[0], Read(start, list[0]));
      assert BytesAt(start, list)[1..] == BytesAt(start, list[1..]);
      WriteBack(start, first, list[1..], a);
    }
  }

  lemma {:induction false} WritePairsTotal(m: Memory, addresses: seq<Address>, values: seq<Byte>)
    requires Total(m) && |addresses| == |values|
    ensures Total(WritePairs(m, addresses, values))
    decreases |addresses|
  {
    if addresses != [] {
      WritePairsTotal(Write(m, addresses[0], values[0]), addresses[1..], values[1..]);
    }
  }

  /** To put back the bytes at what a step noted, as they were, is to take back all that it did. */
  lemma UndoIsExact(start: Memory, now: Memory, notes: seq<Note>, list: seq<Address>)
    requires Total(start) && Total(now) && KeptOutside(start, now, notes)
    requires forall a: Address :: a in list <==> Noted(notes, a)
    ensures WritePairs(now, list, BytesAt(start, list)) == start
  {
    var back := WritePairs(now, list, BytesAt(start, list));
    WritePairsTotal(now, list, BytesAt(start, list));
    forall a: Address ensures Read(back, a) == Read(start, a) {
      WriteBack(start, now, list, a);
      assert KeptAt(start, now, notes, a);
    }
    SameBytes(back, start);
  }

  // ---------- The addresses of a step, each once, in order ----------

  /** An ascending list with an address in its place, if it isn't there already. */
  function InsertOnce(list: seq<Address>, a: Address): (s: seq<Address>)
    ensures forall b: Address :: b in s <==> b == a || b in list
  {
    if list == [] || a < list[0] then [a] + list
    else if a == list[0] then list
    else [list[0]] + InsertOnce(list[1..], a)
  }

  lemma {:induction false} InsertOnceAscends(list: seq<Address>, a: Address)
    requires Ascending(list)
    ensures Ascending(InsertOnce(list, a))
  {
    if list != [] && list[0] < a {
      var rest := InsertOnce(list[1..], a);
      InsertOnceAscends(list[1..], a);
      assert InsertOnce(list, a) == [list[0]] + rest;
      forall j | 0 <= j < |rest| ensures list[0] < rest[j] {
        assert rest[j] in rest;
      }
    }
  }

  /** What is noted, each address once and in order. The host sorts a list of all of them and drops what is twice there,
      which comes to putting each in its place once. */
  method NotedAddresses(notes: seq<Note>) returns (list: seq<Address>)
    ensures Ascending(list) && forall a: Address :: a in list <==> Noted(notes, a)
  {
    list := [];
    for i := 0 to |notes|
      invariant Ascending(list) && forall a: Address :: a in list <==> Noted(notes[..i], a)
    {
      ghost var before := list;
      for k := 0 to notes[i].1
        invariant Ascending(list)
        invariant forall a: Address :: a in list <==> a in before || notes[i].0 <= a < notes[i].0 + k
      {
        InsertOnceAscends(list, notes[i].0 + k);
        list := InsertOnce(list, notes[i].0 + k);
      }
      OneMore(notes, i);
    }
    assert notes[..|notes|] == notes;
  }

  lemma OneMore(notes: seq<Note>, i: nat)
    requires i < |notes|
    ensures forall a: Address :: Noted(notes[..i + 1], a) <==> Noted(notes[..i], a) || Covers(notes[i], a)
  {
    forall a: Address ensures Noted(notes[..i + 1], a) <==> Noted(notes[..i], a) || Covers(notes[i], a) {
      if Noted(notes[..i], a) {
        var j :| 0 <= j < i && Covers(notes[..i][j], a);
        assert Covers(notes[..i + 1][j], a);
      }
      if Covers(notes[i], a) {
        assert Covers(notes[..i + 1][i], a);
      }
      if Noted(notes[..i + 1], a) && !Covers(notes[i], a) {
        var j :| 0 <= j < i + 1 && Covers(notes[..i + 1][j], a);
        assert Covers(notes[..i][j], a);
      }
    }
  }
}
