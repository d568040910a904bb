/** Threads that race on a guest address space (native/paged_memory.h:91-219), one step at a time: each access to an
    entry of the table, to the pages that no one uses, and to a word of a page is a step of its own, and so is each
    instruction of compiled code in a page that it has found (native/bap_jit.cpp:925-995). Any thread may take the next.
    Steps are sequentially consistent; the orders of memory that acquire and release are for are left to the host. */
module PagedRace {
  import opened Basics
  import opened PageTable

  /** What a thread does to one word: it stores some of its bytes, or loads them all; or it looks for the page of an
      address, for an instruction of the host, and makes it if that is to store. */
  datatype Op = Store(address: Address, bytes: seq<Byte>) | Load(address: Address) | Look(address: Address, make: bool)

  /** One instruction of the host, in a page that is there. */
  datatype Instruction = StoreNow(address: Address, bytes: seq<Byte>) | LoadNow(address: Address, count: nat) {
    function Size(): nat { if StoreNow? then |bytes| else count }
  }

  ghost predicate WithinWord(op: Op) {
    op.Store? ==> 1 <= |op.bytes| && op.address % WORD_SIZE + |op.bytes| <= WORD_SIZE
  }

  /** Whether an access is of as much as an instruction has, and aligned to it. */
  ghost predicate Aligned(i: Instruction) {
    HasInstruction(i.Size()) && i.address % i.Size() == 0
  }

  /** Whether an access makes the page if it isn't there: a store of zeros finds them there already. */
  predicate Makes(op: Op) {
    || (op.Store? && exists i | 0 <= i < |op.bytes| :: op.bytes[i] != 0)
    || (op.Look? && op.make)
  }

  /** Where a thread is in an access. What it is about to do is in the names of the steps of `Act`. */
  datatype Thread =
    | Idle
    | Walk(op: Op, node: nat, level: nat)
    | Take(op: Op, node: nat, level: nat)
    | Exchange(op: Op, node: nat, level: nat, made: nat)
    | GiveBack(op: Op, made: nat, page: nat)
    | AtWord(op: Op, page: nat)
    | Retry(op: Op, page: nat, expected: seq<Byte>)

  /** Bytes from an address on that were stored, or loaded, all at once. */
  datatype Event =
    | Stored(thread: nat, address: Address, bytes: seq<Byte>)
    | Loaded(thread: nat, address: Address, bytes: seq<Byte>)

  datatype State = State(
    entries: Entries, nodes: seq<NodeInfo>,
    pages: seq<Page>, owners: seq<PageInfo>, unused: seq<nat>,
    threads: seq<Thread>, history: seq<Event>)

  function Word(page: Page, a: Address): seq<Byte>
    requires |page| == PAGE_SIZE
  {
    page[WordAt(a)..WordAt(a) + WORD_SIZE]
  }

  /** A page as the system gives it. */
  function NoBytes(): (page: Page)
    ensures |page| == PAGE_SIZE && forall i | 0 <= i < PAGE_SIZE :: page[i] == 0
  {
    seq(PAGE_SIZE, _ => 0)
  }

  const NO_WORD: seq<Byte> := [0, 0, 0, 0, 0, 0, 0, 0]

  /** What the memory has at an address: zero where there is no page. */
  function ByteAt(s: State, a: Address): Byte { ByteIn(s.entries, s.pages, a) }

  // ---------- Steps ----------

  function With(s: State, t: nat, thread: Thread): State
    requires t < |s.threads|
  {
    s.(threads := s.threads[t := thread])
  }

  /** An access ends, and its effect goes into the history. */
  function End(s: State, t: nat, event: Event): State
    requires t < |s.threads|
  {
    With(s, t, Idle).(history := s.history + [event])
  }

  function EventOf(t: nat, op: Op, word: seq<Byte>): Event
    requires !op.Look?
  {
    match op
    case Store(address, bytes) => Stored(t, address, bytes)
    case Load(address) => Loaded(t, WordBase(address), word)
  }

  /** Loads an entry of the table. A null one ends what makes no page, as what isn't there is zero. */
  function LoadEntry(s: State, t: nat, op: Op, node: nat, level: nat): State
    requires t < |s.threads| && level < LEVELS
  {
    var slot := Slot(node, IndexAt(op.address, level));
    if slot in s.entries then With(s, t, Down(op, s.entries[slot], level))
    else if Makes(op) then With(s, t, Take(op, node, level))
    else if op.Look? then With(s, t, Idle)
    else End(s, t, EventOf(t, op, NO_WORD))
  }

  function Down(op: Op, child: nat, level: nat): Thread {
    if level + 1 < LEVELS then Walk(op, child, level + 1) else AtWord(op, child)
  }

  /** Makes a node, or takes a page: one that was given back, or else a new one. */
  function Obtain(s: State, t: nat, op: Op, node: nat, level: nat): State
    requires t < |s.threads| && level < LEVELS
  {
    if level + 1 < LEVELS then
      With(s, t, Exchange(op, node, level, |s.nodes|))
      .(nodes := s.nodes + [NodeInfo(level + 1, Prefix(op.address, level + 1), false, t)])
    else if s.unused != [] && s.unused[|s.unused| - 1] < |s.owners| then
      var page := s.unused[|s.unused| - 1];
      With(s, t, Exchange(op, node, level, page)).(unused := s.unused[..|s.unused| - 1], owners := s.owners[page := Held(t)])
    else
      With(s, t, Exchange(op, node, level, |s.pages|)).(pages := s.pages + [NoBytes()], owners := s.owners + [Held(t)])
  }

  /** Exchanges a null entry for what was made. A thread that comes second goes on with what is there: its node is
      deleted, which no one else has seen, and its page given back. */
  function TryExchange(s: State, t: nat, op: Op, node: nat, level: nat, made: nat): State
    requires t < |s.threads| && level < LEVELS
  {
    var slot := Slot(node, IndexAt(op.address, level));
    if slot in s.entries then
      With(s, t, if level + 1 < LEVELS then Down(op, s.entries[slot], level) else GiveBack(op, made, s.entries[slot]))
    else if level + 1 < LEVELS then
      With(s, t, Down(op, made, level))
      .(entries := s.entries[slot := made],
        nodes := if made < |s.nodes| then s.nodes[made := s.nodes[made].(linked := true)] else s.nodes)
    else
      With(s, t, Down(op, made, level))
      .(entries := s.entries[slot := made],
        owners := if made < |s.owners| then s.owners[made := Serves(PageNumber(op.address))] else s.owners)
  }

  function ReturnPage(s: State, t: nat, op: Op, made: nat, page: nat): State
    requires t < |s.threads|
  {
    With(s, t, AtWord(op, page))
    .(unused := s.unused + [made], owners := if made < |s.owners| then s.owners[made := Free] else s.owners)
  }

  /** A load takes the word, a store of a whole word puts it, and any other has to exchange it. Who looked for the page
      has it. */
  function AccessWord(s: State, t: nat, op: Op, page: nat): State
    requires t < |s.threads| && page < |s.pages| && |s.pages[page]| == PAGE_SIZE && WithinWord(op)
  {
    match op
    case Look(_, _) => With(s, t, Idle)
    case Load(_) => End(s, t, Loaded(t, WordBase(op.address), Word(s.pages[page], op.address)))
    case Store(_, _) =>
      if |op.bytes| == WORD_SIZE then
        End(s, t, Stored(t, op.address, op.bytes))
        .(pages := s.pages[page := Put(s.pages[page], WordAt(op.address), op.bytes)])
      else With(s, t, Retry(op, page, Word(s.pages[page], op.address)))
  }

  /** An instruction of the host stores or loads its bytes at once, in the page of its address. */
  function Instruct(s: State, t: nat, i: Instruction): State
    requires t < |s.threads|
  {
    var page, offset := Find(s.entries, i.address), i.address % PAGE_SIZE;
    if page.None? || page.value >= |s.pages| || |s.pages[page.value]| != PAGE_SIZE || offset + i.Size() > PAGE_SIZE then s
    else
      match i
      case StoreNow(address, bytes) =>
        End(s, t, Stored(t, address, bytes))
        .(pages := s.pages[page.value := Put(s.pages[page.value], offset, bytes)])
      case LoadNow(address, count) => End(s, t, Loaded(t, address, s.pages[page.value][offset..offset + count]))
  }

  /** A weak exchange of a word, which fails if the word isn't the expected one, and may fail for nothing. */
  function ExchangeWord(s: State, t: nat, op: Op, page: nat, expected: seq<Byte>, fails: bool): State
    requires t < |s.threads| && page < |s.pages| && |s.pages[page]| == PAGE_SIZE
    requires op.Store? && WithinWord(op) && |expected| == WORD_SIZE
  {
    var word := Word(s.pages[page], op.address);
    if fails || word != expected then With(s, t, Retry(op, page, word))
    else
      var desired := Put(expected, op.address % WORD_SIZE, op.bytes);
      End(s, t, Stored(t, op.address, op.bytes))
      .(pages := s.pages[page := Put(s.pages[page], WordAt(op.address), desired)])
  }

  /** What comes next: a thread begins an access, or goes on with the one it is in, or runs an instruction. */
  datatype Choice = Begin(op: Op) | Act(fails: bool) | Run(instruction: Instruction)

  ghost predicate IsChoice(choice: Choice) {
    (choice.Begin? ==> WithinWord(choice.op)) && (choice.Run? ==> Aligned(choice.instruction))
  }

  ghost function Step(s: State, t: nat, choice: Choice): State
    requires Sound(s) && t < |s.threads| && IsChoice(choice)
  {
    assert Fits(s, t);
    match s.threads[t]
    case Idle =>
      (match choice
       case Begin(op) => With(s, t, Walk(op, ROOT, 0))
       case Run(instruction) => Instruct(s, t, instruction)
       case Act(_) => s)
    case Walk(op, node, level) => LoadEntry(s, t, op, node, level)
    case Take(op, node, level) => Obtain(s, t, op, node, level)
    case Exchange(op, node, level, made) => TryExchange(s, t, op, node, level, made)
    case GiveBack(op, made, page) => ReturnPage(s, t, op, made, page)
    case AtWord(op, page) => AccessWord(s, t, op, page)
    case Retry(op, page, expected) => ExchangeWord(s, t, op, page, expected, choice.Act? && choice.fails)
  }

  // ---------- What every step keeps ----------

  /** Whether what a thread holds on to is what it takes it for. */
  ghost predicate Fits(s: State, t: nat)
    requires t < |s.threads| && |s.owners| == |s.pages|
  {
    match s.threads[t]
    case Idle => true
    case Walk(op, node, level) => WithinWord(op) && Under(s, op, node, level)
    case Take(op, node, level) => WithinWord(op) && Makes(op) && Under(s, op, node, level)
    case Exchange(op, node, level, made) =>
      && WithinWord(op) && Makes(op) && Under(s, op, node, level)
      && (if level + 1 < LEVELS
          then made < |s.nodes| && s.nodes[made] == NodeInfo(level + 1, Prefix(op.address, level + 1), false, t)
          else made < |s.owners| && s.owners[made] == Held(t))
    case GiveBack(op, made, page) =>
      WithinWord(op) && Makes(op) && made < |s.owners| && s.owners[made] == Held(t) && AtPage(s, op, page)
    case AtWord(op, page) => WithinWord(op) && AtPage(s, op, page)
    case Retry(op, page, expected) => WithinWord(op) && op.Store? && |expected| == WORD_SIZE && AtPage(s, op, page)
  }

  ghost predicate Under(s: State, op: Op, node: nat, level: nat) {
    level < LEVELS && NodeFor(s.entries, op.address, level) == Some(node)
  }

  ghost predicate AtPage(s: State, op: Op, page: nat) {
    Find(s.entries, op.address) == Some(page) && page < |s.pages| && |s.pages[page]| == PAGE_SIZE
  }

  /** The table is right, what no one was given is zeros, and each thread has what it takes it has. */
  ghost predicate Sound(s: State) {
    && WellFormed(s.entries, s.nodes, s.owners)
    && |s.owners| == |s.pages|
    && (forall p | 0 <= p < |s.pages| :: |s.pages[p]| == PAGE_SIZE && (!s.owners[p].Serves? ==> s.pages[p] == NoBytes()))
    && (forall i | 0 <= i < |s.unused| :: s.unused[i] < |s.owners| && s.owners[s.unused[i]] == Free)
    && (forall i, j | 0 <= i < j < |s.unused| :: s.unused[i] != s.unused[j])
    && (forall t {:trigger Fits(s, t)} | 0 <= t < |s.threads| :: Fits(s, t))
  }

  /** The last byte that the history stored at an address, or else zero. */
  function LastStored(history: seq<Event>, a: Address): Byte {
    if history == [] then 0
    else
      var event := history[|history| - 1];
      if event.Stored? && event.address <= a < event.address + |event.bytes| then event.bytes[a - event.address]
      else LastStored(history[..|history| - 1], a)
  }

  /** Whether a load gave the bytes last stored before it, all at once. */
  ghost predicate Legal(before: seq<Event>, event: Event) {
    event.Loaded? ==>
      && event.address + |event.bytes| <= WORD
      && forall k | 0 <= k < |event.bytes| :: event.bytes[k] == LastStored(before, event.address + k)
  }

  /** The memory is what the history says, which is one that accesses one after another could have. */
  ghost predicate Tells(s: State) {
    && (forall a: Address :: ByteAt(s, a) == LastStored(s.history, a))
    && (forall i | 0 <= i < |s.history| :: Legal(s.history[..i], s.history[i]))
  }

  lemma OthersFit(s: State, next: State, t: nat, u: nat)
    requires Sound(s) && t < |s.threads| && u < |s.threads| && u != t
    requires |next.threads| == |s.threads| && next.threads[u] == s.threads[u]
    requires |next.owners| == |next.pages| >= |s.pages| && |next.nodes| >= |s.nodes|
    requires Grows(s.entries, next.entries)
    requires forall p | 0 <= p < |s.pages| :: |next.pages[p]| == PAGE_SIZE
    requires forall p | 0 <= p < |s.owners| && s.owners[p].Held? && s.owners[p].maker != t ::
             next.owners[p] == s.owners[p]
    requires forall n | 0 <= n < |s.nodes| && s.nodes[n].maker != t :: next.nodes[n] == s.nodes[n]
    ensures Fits(next, u)
  {
    assert Fits(s, u);
    if !s.threads[u].Idle? {
      var a := s.threads[u].op.address;
      FindStays(s.entries, next.entries, a);
      if s.threads[u].Walk? || s.threads[u].Take? || s.threads[u].Exchange? {
        NodeForStays(s.entries, next.entries, a, s.threads[u].level);
      }
    }
  }

  /** A step of one thread keeps what holds of all, if it grows the table, leaves what others made, and leaves its own
      thread with what it takes it has. */
  lemma StepIsSound(s: State, next: State, t: nat)
    requires Sound(s) && t < |s.threads|
    requires |next.threads| == |s.threads| && forall u | 0 <= u < |s.threads| && u != t :: next.threads[u] == s.threads[u]
    requires WellFormed(next.entries, next.nodes, next.owners)
    requires |next.owners| == |next.pages| >= |s.pages| && |next.nodes| >= |s.nodes|
    requires Grows(s.entries, next.entries)
    requires forall p | 0 <= p < |next.pages| ::
               |next.pages[p]| == PAGE_SIZE && (!next.owners[p].Serves? ==> next.pages[p] == NoBytes())
    requires forall p | 0 <= p < |s.owners| && s.owners[p].Held? && s.owners[p].maker != t ::
             next.owners[p] == s.owners[p]
    requires forall n | 0 <= n < |s.nodes| && s.nodes[n].maker != t :: next.nodes[n] == s.nodes[n]
    requires forall i | 0 <= i < |next.unused| :: next.unused[i] < |next.owners| && next.owners[next.unused[i]] == Free
    requires forall i, j | 0 <= i < j < |next.unused| :: next.unused[i] != next.unused[j]
    requires Fits(next, t)
    ensures Sound(next)
  {
    forall u | 0 <= u < |next.threads| ensures Fits(next, u) {
      if u != t {
        OthersFit(s, next, t, u);
      }
    }
  }

  lemma BeginKeeps(s: State, t: nat, op: Op)
    requires Sound(s) && t < |s.threads| && s.threads[t].Idle? && WithinWord(op)
    ensures Sound(With(s, t, Walk(op, ROOT, 0)))
  {
    StepIsSound(s, With(s, t, Walk(op, ROOT, 0)), t);
  }

  lemma LoadEntryKeeps(s: State, t: nat, op: Op, node: nat, level: nat)
    requires Sound(s) && t < |s.threads| && s.threads[t] == Walk(op, node, level)
    ensures Fits(s, t) && Sound(LoadEntry(s, t, op, node, level))
  {
    assert Fits(s, t);
    var next := LoadEntry(s, t, op, node, level);
    FindServes(s.entries, s.nodes, s.owners, op.address);
    StepIsSound(s, next, t);
  }

  /** What is made or taken is under no entry, and the memory is as it was. */
  lemma ObtainKeeps(s: State, t: nat, op: Op, node: nat, level: nat)
    requires Sound(s) && t < |s.threads| && s.threads[t] == Take(op, node, level)
    ensures Fits(s, t) && Sound(Obtain(s, t, op, node, level))
    ensures forall a: Address :: ByteAt(Obtain(s, t, op, node, level), a) == ByteAt(s, a)
  {
    assert Fits(s, t);
    var next := Obtain(s, t, op, node, level);
    ObtainKeepsTable(s, t, op, node, level);
    StepIsSound(s, next, t);
    ObtainKeepsBytes(s, t, op, node, level);
  }

  lemma ObtainKeepsTable(s: State, t: nat, op: Op, node: nat, level: nat)
    requires Sound(s) && t < |s.threads| && level < LEVELS
    ensures var next := Obtain(s, t, op, node, level); WellFormed(next.entries, next.nodes, next.owners)
  {
    var next := Obtain(s, t, op, node, level);
    forall slot | slot in next.entries ensures Entry(next.entries, next.nodes, next.owners, slot) {
      assert Entry(s.entries, s.nodes, s.owners, slot);
    }
  }

  lemma ObtainKeepsBytes(s: State, t: nat, op: Op, node: nat, level: nat)
    requires Sound(s) && t < |s.threads| && level < LEVELS
    ensures forall a: Address :: ByteAt(Obtain(s, t, op, node, level), a) == ByteAt(s, a)
  {
    forall a: Address ensures ByteAt(Obtain(s, t, op, node, level), a) == ByteAt(s, a) {
      FindServes(s.entries, s.nodes, s.owners, a);
    }
  }

  lemma TryExchangeKeeps(s: State, t: nat, op: Op, node: nat, level: nat, made: nat)
    requires Sound(s) && t < |s.threads| && s.threads[t] == Exchange(op, node, level, made)
    ensures Fits(s, t) && Sound(TryExchange(s, t, op, node, level, made))
    ensures forall a: Address :: ByteAt(TryExchange(s, t, op, node, level, made), a) == ByteAt(s, a)
  {
    assert Fits(s, t);
    var next := TryExchange(s, t, op, node, level, made);
    var slot := Slot(node, IndexAt(op.address, level));
    if slot !in s.entries {
      if level + 1 < LEVELS {
        LinkNode(s.entries, s.nodes, s.owners, op.address, level, node, made);
      } else {
        LinkPage(s.entries, s.nodes, s.owners, op.address, node, made);
      }
    }
    FindServes(s.entries, s.nodes, s.owners, op.address);
    StepIsSound(s, next, t);
    forall a: Address ensures ByteAt(next, a) == ByteAt(s, a) {
      FindServes(s.entries, s.nodes, s.owners, a);
      FindByNumber(s.entries, a, op.address);
    }
  }

  lemma ReturnPageKeeps(s: State, t: nat, op: Op, made: nat, page: nat)
    requires Sound(s) && t < |s.threads| && s.threads[t] == GiveBack(op, made, page)
    ensures Fits(s, t) && Sound(ReturnPage(s, t, op, made, page))
  {
    assert Fits(s, t);
    var next := ReturnPage(s, t, op, made, page);
    forall slot | slot in next.entries ensures Entry(next.entries, next.nodes, next.owners, slot) {
      assert Entry(s.entries, s.nodes, s.owners, slot);
    }
    StepIsSound(s, next, t);
  }

  lemma AccessWordKeeps(s: State, t: nat, op: Op, page: nat)
    requires Sound(s) && t < |s.threads| && s.threads[t] == AtWord(op, page)
    ensures Fits(s, t) && Sound(AccessWord(s, t, op, page))
  {
    assert Fits(s, t);
    FindServes(s.entries, s.nodes, s.owners, op.address);
    StepIsSound(s, AccessWord(s, t, op, page), t);
  }

  lemma ExchangeWordKeeps(s: State, t: nat, op: Op, page: nat, expected: seq<Byte>, fails: bool)
    requires Sound(s) && t < |s.threads| && s.threads[t] == Retry(op, page, expected)
    ensures Fits(s, t) && Sound(ExchangeWord(s, t, op, page, expected, fails))
  {
    assert Fits(s, t);
    FindServes(s.entries, s.nodes, s.owners, op.address);
    StepIsSound(s, ExchangeWord(s, t, op, page, expected, fails), t);
  }

  // ---------- What each access does, and when ----------

  /** What a step does to the memory. Either nothing, and the access goes on, if it was not to look; or the access ends
      with it, and its event happens. */
  ghost predicate TakesEffect(s: State, next: State, t: nat) {
    && |next.threads| == |s.threads| && t < |s.threads|
    && if next.history == s.history then
         && (forall a: Address :: ByteAt(next, a) == ByteAt(s, a))
         && (!s.threads[t].Idle? ==>
               if next.threads[t].Idle? then s.threads[t].op.Look? else next.threads[t].op == s.threads[t].op)
       else
         && !s.threads[t].Idle? && next.threads[t].Idle?
         && |next.history| == |s.history| + 1
         && IsOf(s.threads[t].op, t, next.history[|s.history|])
         && Happens(s, next, next.history[|s.history|])
  }

  /** An event goes into the history. A store changes the memory at just its bytes, to those, and a load is of what is
      there, and changes nothing. */
  ghost predicate Happens(s: State, next: State, event: Event) {
    && next.history == s.history + [event]
    && match event
       case Stored(_, address, bytes) => Changed(s, next, address, bytes)
       case Loaded(_, address, bytes) =>
         && address + |bytes| <= WORD
         && (forall k | 0 <= k < |bytes| :: bytes[k] == ByteAt(s, address + k))
         && (forall a: Address :: ByteAt(next, a) == ByteAt(s, a))
  }

  ghost predicate Changed(s: State, next: State, address: Address, bytes: seq<Byte>) {
    forall a: Address ::
      ByteAt(next, a) == if address <= a < address + |bytes| then bytes[a - address] else ByteAt(s, a)
  }

  ghost predicate IsOf(op: Op, t: nat, event: Event) {
    match op
    case Store(address, bytes) => event == Stored(t, address, bytes)
    case Load(address) => event.Loaded? && event == Loaded(t, WordBase(address), event.bytes) && |event.bytes| == WORD_SIZE
    case Look(_, _) => false
  }

  /** What an instruction does: all of it at once, in a page that is there. */
  ghost predicate RunsAtOnce(s: State, next: State, t: nat, i: Instruction) {
    if Find(s.entries, i.address).None? then next == s
    else
      && next.threads == s.threads && |next.history| == |s.history| + 1
      && var event := next.history[|s.history|];
      && Happens(s, next, event)
      && match i
         case StoreNow(address, bytes) => event == Stored(t, address, bytes)
         case LoadNow(address, count) => event.Loaded? && event == Loaded(t, address, event.bytes) && |event.bytes| == count
  }

  /** A load that ends where all of it is there happens, and changes nothing else. */
  lemma EndedLoad(s: State, t: nat, address: Address, bytes: seq<Byte>)
    requires t < |s.threads| && address + |bytes| <= WORD && forall k | 0 <= k < |bytes| :: bytes[k] == ByteAt(s, address + k)
    ensures Happens(s, End(s, t, Loaded(t, address, bytes)), Loaded(t, address, bytes))
    ensures var next := End(s, t, Loaded(t, address, bytes)); next.history[|s.history|] == Loaded(t, address, bytes)
  {
    var next := End(s, t, Loaded(t, address, bytes));
    forall a: Address ensures ByteAt(next, a) == ByteAt(s, a) {}
  }

  /** Where there is no page there are zeros, and a load of them, or a store of them, is one of what is there. */
  lemma NoPageTakesEffect(s: State, t: nat, op: Op)
    requires Sound(s) && t < |s.threads| && !s.threads[t].Idle? && s.threads[t].op == op
    requires WithinWord(op) && !op.Look? && !Makes(op) && Find(s.entries, op.address).None?
    ensures TakesEffect(s, End(s, t, EventOf(t, op, NO_WORD)), t)
  {
    var next := End(s, t, EventOf(t, op, NO_WORD));
    if op.Store? {
      ZerosAreThere(s, next, op.address, op.bytes);
      assert Happens(s, next, Stored(t, op.address, op.bytes));
    } else {
      NoWordIsThere(s, op.address);
      EndedLoad(s, t, WordBase(op.address), NO_WORD);
    }
    assert next.history[|s.history|] == EventOf(t, op, NO_WORD);
  }

  lemma NoWordIsThere(s: State, address: Address)
    requires Find(s.entries, address).None?
    ensures forall k | 0 <= k < WORD_SIZE :: NO_WORD[k] == ByteAt(s, WordBase(address) + k)
  {
    forall k | 0 <= k < WORD_SIZE ensures NO_WORD[k] == ByteAt(s, WordBase(address) + k) {
      PageTable.WordIsThere(s.entries, s.pages, address, k);
    }
  }

  lemma ZerosAreThere(s: State, next: State, address: Address, bytes: seq<Byte>)
    requires Find(s.entries, address).None? && address % WORD_SIZE + |bytes| <= WORD_SIZE
    requires forall i | 0 <= i < |bytes| :: bytes[i] == 0
    requires next.entries == s.entries && next.pages == s.pages
    ensures Changed(s, next, address, bytes)
  {
    WordInPage(address);
    forall a: Address ensures ByteAt(next, a) == if address <= a < address + |bytes| then bytes[a - address] else ByteAt(s, a) {
      InPage(address, a, |bytes|);
      FindByNumber(s.entries, address, a);
    }
  }

  /** Bytes put into the page of an access change just their own addresses. */
  lemma PutTakesEffect(s: State, next: State, page: nat, address: Address, bytes: seq<Byte>)
    requires Sound(s) && Find(s.entries, address) == Some(page) && page < |s.pages|
    requires next.entries == s.entries && address % PAGE_SIZE + |bytes| <= PAGE_SIZE
    requires next.pages == s.pages[page := Put(s.pages[page], address % PAGE_SIZE, bytes)]
    ensures Changed(s, next, address, bytes)
  {
    forall a: Address
      ensures ByteAt(next, a) == if address <= a < address + |bytes| then bytes[a - address] else ByteAt(s, a) {
      PutByte(s.entries, s.nodes, s.owners, s.pages, page, address, bytes, a);
    }
  }

  lemma InstructKeeps(s: State, t: nat, i: Instruction)
    requires Sound(s) && t < |s.threads| && s.threads[t].Idle? && Aligned(i)
    ensures Sound(Instruct(s, t, i))
  {
    FindServes(s.entries, s.nodes, s.owners, i.address);
    StepIsSound(s, Instruct(s, t, i), t);
  }

  lemma InstructStores(s: State, t: nat, address: Address, bytes: seq<Byte>, page: nat)
    requires Find(s.entries, address) == Some(page) && page < |s.pages| && |s.pages[page]| == PAGE_SIZE
    requires Sound(s) && t < |s.threads| && s.threads[t].Idle? && address % PAGE_SIZE + |bytes| <= PAGE_SIZE
    ensures RunsAtOnce(s, Instruct(s, t, StoreNow(address, bytes)), t, StoreNow(address, bytes))
  {
    var next := Instruct(s, t, StoreNow(address, bytes));
    PutTakesEffect(s, next, page, address, bytes);
    assert next.history[|s.history|] == Stored(t, address, bytes);
  }

  lemma InstructLoads(s: State, t: nat, address: Address, count: nat, page: nat)
    requires Find(s.entries, address) == Some(page) && page < |s.pages| && |s.pages[page]| == PAGE_SIZE
    requires t < |s.threads| && s.threads[t].Idle? && address % PAGE_SIZE + count <= PAGE_SIZE
    ensures RunsAtOnce(s, Instruct(s, t, LoadNow(address, count)), t, LoadNow(address, count))
  {
    var offset := address % PAGE_SIZE;
    var bytes := s.pages[page][offset..offset + count];
    LoadNowTakesEffect(s, address, page, bytes);
    EndedLoad(s, t, address, bytes);
  }

  /** An instruction of the host takes effect at once, whatever other threads do to the same word. */
  lemma InstructTakesEffect(s: State, t: nat, i: Instruction)
    requires Sound(s) && t < |s.threads| && s.threads[t].Idle? && Aligned(i)
    ensures RunsAtOnce(s, Instruct(s, t, i), t, i)
  {
    InstructionFits(i.address, i.Size());
    FindServes(s.entries, s.nodes, s.owners, i.address);
    if Find(s.entries, i.address).Some? {
      match i
      case StoreNow(address, bytes) => InstructStores(s, t, address, bytes, Find(s.entries, address).value);
      case LoadNow(address, count) => InstructLoads(s, t, address, count, Find(s.entries, address).value);
    }
  }

  lemma LoadNowTakesEffect(s: State, address: Address, page: nat, bytes: seq<Byte>)
    requires Find(s.entries, address) == Some(page) && page < |s.pages| && |s.pages[page]| == PAGE_SIZE
    requires address % PAGE_SIZE + |bytes| <= PAGE_SIZE
    requires bytes == s.pages[page][address % PAGE_SIZE..address % PAGE_SIZE + |bytes|]
    ensures address + |bytes| <= WORD && forall k | 0 <= k < |bytes| :: bytes[k] == ByteAt(s, address + k)
  {
    RoomInPage(address);
    forall k | 0 <= k < |bytes| ensures bytes[k] == ByteAt(s, address + k) {
      ByteOfPage(s.entries, s.pages, address, k);
    }
  }

  lemma WordIsThere(s: State, a: Address, page: nat)
    requires Find(s.entries, a) == Some(page) && page < |s.pages| && |s.pages[page]| == PAGE_SIZE
    ensures forall k | 0 <= k < WORD_SIZE :: Word(s.pages[page], a)[k] == ByteAt(s, WordBase(a) + k)
  {
    forall k | 0 <= k < WORD_SIZE ensures Word(s.pages[page], a)[k] == ByteAt(s, WordBase(a) + k) {
      PageTable.WordIsThere(s.entries, s.pages, a, k);
    }
  }

  lemma LoadTakesEffect(s: State, t: nat, op: Op, page: nat)
    requires Sound(s) && t < |s.threads| && s.threads[t] == AtWord(op, page) && op.Load?
    ensures Fits(s, t) && TakesEffect(s, AccessWord(s, t, op, page), t)
  {
    assert Fits(s, t);
    WordIsThere(s, op.address, page);
  }

  lemma AccessWordTakesEffect(s: State, t: nat, op: Op, page: nat)
    requires Sound(s) && t < |s.threads| && s.threads[t] == AtWord(op, page)
    ensures Fits(s, t) && TakesEffect(s, AccessWord(s, t, op, page), t)
  {
    assert Fits(s, t);
    if op.Load? {
      LoadTakesEffect(s, t, op, page);
    } else if op.Store? && |op.bytes| == WORD_SIZE {
      assert WordAt(op.address) == op.address % PAGE_SIZE;
      PutTakesEffect(s, AccessWord(s, t, op, page), page, op.address, op.bytes);
    }
  }

  /** A word with some bytes of it put, in its place, is those bytes put in theirs. */
  lemma PutInWord(page: Page, w: nat, word: seq<Byte>, offset: nat, bytes: seq<Byte>)
    requires w + |word| <= |page| && page[w..w + |word|] == word && offset + |bytes| <= |word|
    ensures Put(page, w, Put(word, offset, bytes)) == Put(page, w + offset, bytes)
  {
    var desired := Put(word, offset, bytes);
    var once, whole := Put(page, w + offset, bytes), Put(page, w, desired);
    forall i | 0 <= i < |page| ensures whole[i] == once[i] {
      if w <= i < w + |word| {
        assert page[i] == word[i - w];
      }
    }
  }

  /** The exchange of a word puts the bytes of the store, and leaves the others as they are now. */
  lemma ExchangeWordTakesEffect(s: State, t: nat, op: Op, page: nat, expected: seq<Byte>, fails: bool)
    requires Sound(s) && t < |s.threads| && s.threads[t] == Retry(op, page, expected)
    ensures Fits(s, t) && TakesEffect(s, ExchangeWord(s, t, op, page, expected, fails), t)
  {
    assert Fits(s, t);
    var next := ExchangeWord(s, t, op, page, expected, fails);
    var was := s.pages[page];
    if !fails && Word(was, op.address) == expected {
      PutInWord(was, WordAt(op.address), expected, op.address % WORD_SIZE, op.bytes);
      PutTakesEffect(s, next, page, op.address, op.bytes);
    }
  }

  lemma LoadEntryTakesEffect(s: State, t: nat, op: Op, node: nat, level: nat)
    requires Sound(s) && t < |s.threads| && s.threads[t] == Walk(op, node, level)
    ensures Fits(s, t) && TakesEffect(s, LoadEntry(s, t, op, node, level), t)
  {
    assert Fits(s, t);
    if Slot(node, IndexAt(op.address, level)) !in s.entries && !Makes(op) && !op.Look? {
      NothingUnder(s.entries, op.address, level);
      NoPageTakesEffect(s, t, op);
    }
  }

  lemma QuietTakesEffect(s: State, next: State, t: nat)
    requires |next.threads| == |s.threads| && t < |s.threads| && next.history == s.history
    requires forall a: Address :: ByteAt(next, a) == ByteAt(s, a)
    requires !s.threads[t].Idle? ==> !next.threads[t].Idle? && next.threads[t].op == s.threads[t].op
    ensures TakesEffect(s, next, t)
  {
  }

  /** Every step keeps what holds of all threads. */
  lemma StepKeeps(s: State, t: nat, choice: Choice)
    requires Sound(s) && t < |s.threads| && IsChoice(choice)
    ensures Sound(Step(s, t, choice))
  {
    match s.threads[t]
    case Idle =>
      if choice.Begin? {
        BeginKeeps(s, t, choice.op);
      } else if choice.Run? {
        InstructKeeps(s, t, choice.instruction);
      }
    case Walk(op, node, level) => LoadEntryKeeps(s, t, op, node, level);
    case Take(op, node, level) => ObtainKeeps(s, t, op, node, level);
    case Exchange(op, node, level, made) => TryExchangeKeeps(s, t, op, node, level, made);
    case GiveBack(op, made, page) => ReturnPageKeeps(s, t, op, made, page);
    case AtWord(op, page) => AccessWordKeeps(s, t, op, page);
    case Retry(op, page, expected) => ExchangeWordKeeps(s, t, op, page, expected, choice.Act? && choice.fails);
  }

  lemma SameThreads(s: State, t: nat, choice: Choice)
    requires Sound(s) && t < |s.threads| && IsChoice(choice)
    ensures |Step(s, t, choice).threads| == |s.threads|
  {
    assert Fits(s, t);
  }

  /** An access takes effect at the one step that ends it, and an instruction at its own. */
  lemma StepTakesEffect(s: State, t: nat, choice: Choice)
    requires Sound(s) && t < |s.threads| && IsChoice(choice)
    ensures if s.threads[t].Idle? && choice.Run? then RunsAtOnce(s, Step(s, t, choice), t, choice.instruction)
            else TakesEffect(s, Step(s, t, choice), t)
  {
    match s.threads[t]
    case Idle =>
      if choice.Run? {
        InstructTakesEffect(s, t, choice.instruction);
      }
    case Walk(op, node, level) => LoadEntryTakesEffect(s, t, op, node, level);
    case AtWord(op, page) => AccessWordTakesEffect(s, t, op, page);
    case Retry(op, page, expected) => ExchangeWordTakesEffect(s, t, op, page, expected, choice.Act? && choice.fails);
    case Take(op, node, level) =>
      ObtainKeeps(s, t, op, node, level);
      QuietTakesEffect(s, Step(s, t, choice), t);
    case Exchange(op, node, level, made) =>
      TryExchangeKeeps(s, t, op, node, level, made);
      QuietTakesEffect(s, Step(s, t, choice), t);
    case _ => QuietTakesEffect(s, Step(s, t, choice), t);
  }

  lemma StepGrows(s: State, t: nat, choice: Choice, a: Address)
    requires Sound(s) && t < |s.threads| && IsChoice(choice)
    ensures Find(s.entries, a).Some? ==> Find(Step(s, t, choice).entries, a) == Find(s.entries, a)
  {
    assert Fits(s, t);
    FindStays(s.entries, Step(s, t, choice).entries, a);
  }

  // ---------- Every run ----------

  datatype Turn = Turn(thread: nat, choice: Choice)

  ghost predicate Possible(s: State, schedule: seq<Turn>) {
    forall i | 0 <= i < |schedule| ::
      schedule[i].thread < |s.threads| && IsChoice(schedule[i].choice)
  }

  /** A memory that nothing was written to, and threads that have done nothing. */
  function Fresh(threads: nat): State {
    State(map[], [NodeInfo(0, 0, true, 0)], [], [], [], seq(threads, _ => Idle), [])
  }

  lemma FreshIsSound(threads: nat)
    ensures Sound(Fresh(threads)) && Tells(Fresh(threads))
  {
    var s := Fresh(threads);
    forall a: Address ensures ByteAt(s, a) == 0 {
      NothingThere(a);
    }
    forall t | 0 <= t < threads ensures Fits(s, t) {}
  }

  /** The state after the turns of a schedule, which says who takes each step and what is left to chance. */
  ghost function After(s: State, schedule: seq<Turn>): (next: State)
    requires Sound(s) && Possible(s, schedule)
    ensures Sound(next) && |next.threads| == |s.threads|
    decreases |schedule|
  {
    if schedule == [] then s
    else
      var before := After(s, schedule[..|schedule| - 1]);
      var turn := schedule[|schedule| - 1];
      StepKeeps(before, turn.thread, turn.choice);
      SameThreads(before, turn.thread, turn.choice);
      Step(before, turn.thread, turn.choice)
  }

  /** What happens leaves a history that tells the memory. */
  lemma HappensTells(s: State, next: State, event: Event)
    requires Tells(s) && Happens(s, next, event)
    ensures Tells(next)
  {
    var n := |s.history|;
    assert next.history[..n] == s.history;
    forall i | 0 <= i < |next.history| ensures Legal(next.history[..i], next.history[i]) {
      if i < n {
        assert next.history[..i] == s.history[..i];
        assert Legal(s.history[..i], s.history[i]);
      }
    }
  }

  lemma StepTells(s: State, t: nat, choice: Choice)
    requires Sound(s) && t < |s.threads| && IsChoice(choice) && Tells(s)
    ensures Tells(Step(s, t, choice))
  {
    StepTakesEffect(s, t, choice);
    var next := Step(s, t, choice);
    if next.history != s.history {
      HappensTells(s, next, next.history[|s.history|]);
    }
  }

  /** In every interleaving of any number of threads, of whatever accesses and instructions, and however often an exchange
      of a word fails for nothing: the memory at each address is what was last stored there, and each load gave, all at
      once, what was last stored before it. */
  lemma {:induction false} EveryRunTells(s: State, schedule: seq<Turn>)
    requires Sound(s) && Tells(s) && Possible(s, schedule)
    ensures Tells(After(s, schedule))
    decreases |schedule|
  {
    if schedule != [] {
      var rest, turn := schedule[..|schedule| - 1], schedule[|schedule| - 1];
      EveryRunTells(s, rest);
      StepTells(After(s, rest), turn.thread, turn.choice);
    }
  }

  /** In every run a page stays where it is once it is there, serves one page number, and is zeros until it is there. */
  lemma {:induction false} EveryRunKeepsPages(s: State, schedule: seq<Turn>, a: Address, b: Address)
    requires Sound(s) && Possible(s, schedule)
    ensures Find(s.entries, a).Some? ==> Find(After(s, schedule).entries, a) == Find(s.entries, a)
    ensures var next := After(s, schedule);
            Find(next.entries, a).Some? && Find(next.entries, a) == Find(next.entries, b) ==>
              PageNumber(a) == PageNumber(b)
    ensures var next := After(s, schedule);
            forall p | 0 <= p < |next.pages| ::
              next.pages[p] == NoBytes() || exists n: nat :: next.owners[p] == Serves(n)
    decreases |schedule|
  {
    var next := After(s, schedule);
    FindServes(next.entries, next.nodes, next.owners, a);
    FindServes(next.entries, next.nodes, next.owners, b);
    if schedule != [] {
      var rest, turn := schedule[..|schedule| - 1], schedule[|schedule| - 1];
      EveryRunKeepsPages(s, rest, a, b);
      StepGrows(After(s, rest), turn.thread, turn.choice, a);
    }
  }
}
