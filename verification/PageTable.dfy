/** The table of a guest address space (native/paged_memory.h:34-75): four levels of 2^13 entries each over pages of
    2^12 bytes, which hold all 64 bits of an address. What the sequential and the concurrent model have in common. */
module PageTable {
  import opened Basics

  const PAGE_SIZE: nat := 0x1000
  const WORD_SIZE: nat := 8
  const FANOUT: nat := 0x2000
  const LEVELS: nat := 4

  type Byte = b: nat | b < 256
  type Address = U64

  /** The addresses under one node of a level, or under a page for the level past the last. */
  function Span(level: nat): (span: nat)
    requires level <= LEVELS
    ensures span > 0 && span % PAGE_SIZE == 0
  {
    match level
    case 0 => WORD
    case 1 => 0x8_0000_0000_0000
    case 2 => 0x40_0000_0000
    case 3 => 0x200_0000
    case 4 => PAGE_SIZE
  }

  /** The entry of an address in its node of a level: the 13 bits that the level has of it. */
  function IndexAt(a: Address, level: nat): (index: nat)
    requires level < LEVELS
    ensures index < FANOUT
  {
    (a / Span(level + 1)) % FANOUT
  }

  /** The bits of an address above those that a level and what is below it have. */
  function Prefix(a: Address, level: nat): nat
    requires level <= LEVELS
  {
    a / Span(level)
  }

  function PageNumber(a: Address): nat { a / PAGE_SIZE }

  lemma PrefixGrows(a: Address, level: nat)
    requires level < LEVELS
    ensures Prefix(a, level + 1) == Prefix(a, level) * FANOUT + IndexAt(a, level)
    ensures Prefix(a, 0) == 0
  {
    var small, large := Span(level + 1), Span(level);
    var q := a / small;
    var above, rest := q / FANOUT, (q % FANOUT) * small + a % small;
    assert large == small * FANOUT;
    assert a == above * large + rest && 0 <= rest < large;
    Quotient(a, large, above, rest);
  }

  /** Where the word of an address is in its page. */
  function WordAt(a: Address): (w: nat)
    ensures w + WORD_SIZE <= PAGE_SIZE && w + a % WORD_SIZE == a % PAGE_SIZE
  {
    WordInPage(a);
    a % PAGE_SIZE - a % WORD_SIZE
  }

  lemma WordInPage(a: Address)
    ensures a % PAGE_SIZE % WORD_SIZE == a % WORD_SIZE
    ensures a % PAGE_SIZE - a % WORD_SIZE <= PAGE_SIZE - WORD_SIZE
  {
    var r := a % PAGE_SIZE;
    assert a == (a / PAGE_SIZE * 0x200 + r / WORD_SIZE) * WORD_SIZE + r % WORD_SIZE;
    Quotient(a, WORD_SIZE, a / PAGE_SIZE * 0x200 + r / WORD_SIZE, r % WORD_SIZE);
  }

  /** The first address of the word of an address. */
  function WordBase(a: Address): (base: Address)
    ensures base + WORD_SIZE <= WORD && base + a % WORD_SIZE == a
  {
    a - a % WORD_SIZE
  }

  lemma WordBaseInPage(a: Address)
    ensures PageNumber(WordBase(a)) == PageNumber(a) && WordBase(a) % PAGE_SIZE == WordAt(a)
  {
    Quotient(WordBase(a), PAGE_SIZE, PageNumber(a), WordAt(a));
  }

  /** Whether an access is one that an instruction of the host makes. */
  predicate HasInstruction(size: nat) { size in {1, 2, 4, 8} }

  /** An access of an instruction is within a page. */
  lemma InstructionFits(a: Address, size: nat)
    requires HasInstruction(size)
    ensures a % size == 0 ==> a % PAGE_SIZE + size <= PAGE_SIZE
  {
  }

  /** A byte of the word of an address is in its page too. */
  lemma ByteOfWord(a: Address, k: nat)
    requires k < WORD_SIZE
    ensures PageNumber(WordBase(a) + k) == PageNumber(a) && (WordBase(a) + k) % PAGE_SIZE == WordAt(a) + k
  {
    WordBaseInPage(a);
    Quotient(WordBase(a) + k, PAGE_SIZE, PageNumber(a), WordAt(a) + k);
  }

  /** An entry of a node, by the numbers of both. An entry that isn't in a table is null. */
  datatype Slot = Slot(node: nat, index: nat)
  type Entries = map<Slot, nat>

  const ROOT: nat := 0

  /** The node of a level that an address is under, if it is there. */
  function NodeFor(entries: Entries, a: Address, level: nat): Option<nat>
    requires level < LEVELS
  {
    if level == 0 then Some(ROOT)
    else match NodeFor(entries, a, level - 1)
      case None => None
      case Some(node) =>
        var slot := Slot(node, IndexAt(a, level - 1));
        if slot in entries then Some(entries[slot]) else None
  }

  /** The page of an address, if it is there. */
  function Find(entries: Entries, a: Address): Option<nat> {
    match NodeFor(entries, a, LEVELS - 1)
    case None => None
    case Some(node) =>
      var slot := Slot(node, IndexAt(a, LEVELS - 1));
      if slot in entries then Some(entries[slot]) else None
  }

  /** What a node is for: a level, and the bits of the addresses under it. One that isn't in the table is no one's but
      its maker's. */
  datatype NodeInfo = NodeInfo(level: nat, prefix: nat, linked: bool, maker: nat)

  /** What a page is for: nothing, what its maker makes of it, or the addresses of one page number. */
  datatype PageInfo = Free | Held(maker: nat) | Serves(number: nat)

  /** Every entry goes to what is for just the addresses under it. */
  ghost predicate Entry(entries: Entries, nodes: seq<NodeInfo>, owners: seq<PageInfo>, slot: Slot)
    requires slot in entries
  {
    && slot.node < |nodes| && slot.index < FANOUT && nodes[slot.node].linked && nodes[slot.node].level < LEVELS
    && var node, child := nodes[slot.node], entries[slot];
    && var under := node.prefix * FANOUT + slot.index;
    && if node.level + 1 < LEVELS
       then child < |nodes| && nodes[child].linked && nodes[child].level == node.level + 1 && nodes[child].prefix == under
       else child < |owners| && owners[child] == Serves(under)
  }

  ghost predicate WellFormed(entries: Entries, nodes: seq<NodeInfo>, owners: seq<PageInfo>) {
    && |nodes| > 0 && nodes[ROOT].level == 0 && nodes[ROOT].prefix == 0 && nodes[ROOT].linked
    && forall slot {:trigger Entry(entries, nodes, owners, slot)} | slot in entries :: Entry(entries, nodes, owners, slot)
  }

  lemma {:induction false} NodeForIsRight(entries: Entries, nodes: seq<NodeInfo>, owners: seq<PageInfo>, a: Address, level: nat)
    requires WellFormed(entries, nodes, owners) && level < LEVELS
    ensures NodeFor(entries, a, level).Some? ==>
              var node := NodeFor(entries, a, level).value;
              node < |nodes| && nodes[node].linked && nodes[node].level == level && nodes[node].prefix == Prefix(a, level)
  {
    PrefixGrows(a, level);
    if level > 0 {
      NodeForIsRight(entries, nodes, owners, a, level - 1);
      PrefixGrows(a, level - 1);
      match NodeFor(entries, a, level - 1)
      case None =>
      case Some(node) =>
        var slot := Slot(node, IndexAt(a, level - 1));
        if slot in entries {
          assert Entry(entries, nodes, owners, slot);
        }
    }
  }

  /** A page serves the addresses of one page number, and no two. */
  lemma FindServes(entries: Entries, nodes: seq<NodeInfo>, owners: seq<PageInfo>, a: Address)
    requires WellFormed(entries, nodes, owners)
    ensures Find(entries, a).Some? ==>
              Find(entries, a).value < |owners| && owners[Find(entries, a).value] == Serves(PageNumber(a))
  {
    NodeForIsRight(entries, nodes, owners, a, LEVELS - 1);
    PrefixGrows(a, LEVELS - 1);
    if Find(entries, a).Some? {
      assert Entry(entries, nodes, owners, Slot(NodeFor(entries, a, LEVELS - 1).value, IndexAt(a, LEVELS - 1)));
    }
  }

  /** Addresses with the same bits above a level are under the same node of it. */
  lemma {:induction false} NodeForByPrefix(entries: Entries, a: Address, b: Address, level: nat)
    requires level < LEVELS && Prefix(a, level) == Prefix(b, level)
    ensures NodeFor(entries, a, level) == NodeFor(entries, b, level)
  {
    if level > 0 {
      PrefixGrows(a, level - 1);
      PrefixGrows(b, level - 1);
      NodeForByPrefix(entries, a, b, level - 1);
    }
  }

  lemma FindByNumber(entries: Entries, a: Address, b: Address)
    ensures PageNumber(a) == PageNumber(b) ==> Find(entries, a) == Find(entries, b)
  {
    if PageNumber(a) == PageNumber(b) {
      PrefixGrows(a, LEVELS - 1);
      PrefixGrows(b, LEVELS - 1);
      NodeForByPrefix(entries, a, b, LEVELS - 1);
    }
  }

  /** Whether entries that are there stay as they are. */
  ghost predicate Grows(entries: Entries, more: Entries) {
    forall slot <- entries :: slot in more && more[slot] == entries[slot]
  }

  /** What is there stays where it is, whatever comes. */
  lemma {:induction false} NodeForStays(entries: Entries, more: Entries, a: Address, level: nat)
    requires level < LEVELS
    requires Grows(entries, more)
    ensures NodeFor(entries, a, level).Some? ==> NodeFor(more, a, level) == NodeFor(entries, a, level)
  {
    if level > 0 {
      NodeForStays(entries, more, a, level - 1);
    }
  }

  lemma FindStays(entries: Entries, more: Entries, a: Address)
    requires Grows(entries, more)
    ensures Find(entries, a).Some? ==> Find(more, a) == Find(entries, a)
  {
    NodeForStays(entries, more, a, LEVELS - 1);
  }

  /** A new node in an entry above the last level: nothing is under it yet, and nothing is found that wasn't. */
  lemma LinkNode(entries: Entries, nodes: seq<NodeInfo>, owners: seq<PageInfo>, a: Address, level: nat, node: nat, made: nat)
    requires WellFormed(entries, nodes, owners) && level + 1 < LEVELS
    requires NodeFor(entries, a, level) == Some(node) && Slot(node, IndexAt(a, level)) !in entries
    requires made < |nodes| && !nodes[made].linked && nodes[made].level == level + 1
             && nodes[made].prefix == Prefix(a, level + 1)
    ensures var more, known := entries[Slot(node, IndexAt(a, level)) := made], nodes[made := nodes[made].(linked := true)];
            && WellFormed(more, known, owners)
            && NodeFor(more, a, level + 1) == Some(made)
            && forall b: Address :: Find(more, b) == Find(entries, b)
  {
    var slot := Slot(node, IndexAt(a, level));
    var more, known := entries[slot := made], nodes[made := nodes[made].(linked := true)];
    NodeForIsRight(entries, nodes, owners, a, level);
    PrefixGrows(a, level);
    forall s | s in more ensures Entry(more, known, owners, s) {
      if s != slot {
        assert Entry(entries, nodes, owners, s);
      }
    }
    NodeForStays(entries, more, a, level);
    forall s | s in entries ensures s.node != made {
      assert Entry(entries, nodes, owners, s);
    }
    forall b: Address ensures Find(more, b) == Find(entries, b) {
      LinkNodeUnder(entries, more, slot, made, b, LEVELS - 1);
      NodeForIsRight(entries, nodes, owners, b, LEVELS - 1);
    }
  }

  /** After a node is linked, an address comes to what it came to before, or through the new node, to nothing. */
  lemma {:induction false} LinkNodeUnder(entries: Entries, more: Entries, slot: Slot, made: nat, b: Address, level: nat)
    requires level < LEVELS && slot !in entries && more == entries[slot := made]
    requires forall s: Slot | s.node == made :: s !in more
    ensures || NodeFor(more, b, level) == NodeFor(entries, b, level)
            || (NodeFor(more, b, level) == Some(made) && NodeFor(entries, b, level).None?)
  {
    if level > 0 {
      LinkNodeUnder(entries, more, slot, made, b, level - 1);
    }
  }

  /** A page in an entry of the last level: it is found at the addresses of its number, and nothing else changes. */
  lemma LinkPage(entries: Entries, nodes: seq<NodeInfo>, owners: seq<PageInfo>, a: Address, node: nat, made: nat)
    requires WellFormed(entries, nodes, owners)
    requires NodeFor(entries, a, LEVELS - 1) == Some(node) && Slot(node, IndexAt(a, LEVELS - 1)) !in entries
    requires made < |owners| && !owners[made].Serves?
    ensures var more := entries[Slot(node, IndexAt(a, LEVELS - 1)) := made];
            && WellFormed(more, nodes, owners[made := Serves(PageNumber(a))])
            && Find(entries, a) == None
            && forall b: Address :: Find(more, b) == if PageNumber(b) == PageNumber(a) then Some(made) else Find(entries, b)
  {
    var slot := Slot(node, IndexAt(a, LEVELS - 1));
    var more, known := entries[slot := made], owners[made := Serves(PageNumber(a))];
    NodeForIsRight(entries, nodes, owners, a, LEVELS - 1);
    PrefixGrows(a, LEVELS - 1);
    forall s | s in more ensures Entry(more, nodes, known, s) {
      if s != slot {
        assert Entry(entries, nodes, owners, s);
      }
    }
    forall b: Address
      ensures Find(more, b) == if PageNumber(b) == PageNumber(a) then Some(made) else Find(entries, b) {
      NodeForStays(entries, more, a, LEVELS - 1);
      LinkPageUnder(entries, more, nodes, owners, slot, made, b, LEVELS - 1);
      FindByNumber(more, a, b);
      NodeForIsRight(entries, nodes, owners, b, LEVELS - 1);
      PrefixGrows(b, LEVELS - 1);
    }
  }

  lemma {:induction false} LinkPageUnder(
      entries: Entries, more: Entries, nodes: seq<NodeInfo>, owners: seq<PageInfo>, slot: Slot, made: nat, b: Address, level: nat)
    requires WellFormed(entries, nodes, owners) && level < LEVELS
    requires slot !in entries && more == entries[slot := made]
    requires slot.node < |nodes| && nodes[slot.node].level == LEVELS - 1
    ensures NodeFor(more, b, level) == NodeFor(entries, b, level)
  {
    if level > 0 {
      LinkPageUnder(entries, more, nodes, owners, slot, made, b, level - 1);
      NodeForIsRight(entries, nodes, owners, b, level - 1);
    }
  }

  lemma NothingThere(a: Address)
    ensures Find(map[], a) == None
  {
    assert NodeFor(map[], a, 1) == None;
    assert NodeFor(map[], a, 2) == None;
    assert NodeFor(map[], a, 3) == None;
  }

  /** Under a null entry no page is found. */
  lemma {:induction false} NothingUnder(entries: Entries, a: Address, level: nat)
    requires level < LEVELS && NodeFor(entries, a, level).Some?
    requires Slot(NodeFor(entries, a, level).value, IndexAt(a, level)) !in entries
    ensures Find(entries, a).None?
    decreases LEVELS - level
  {
    if level + 1 < LEVELS {
      assert NodeFor(entries, a, level + 1).None?;
      NothingBelow(entries, a, level + 1, LEVELS - 1);
    }
  }

  lemma {:induction false} NothingBelow(entries: Entries, a: Address, level: nat, below: nat)
    requires level <= below < LEVELS && NodeFor(entries, a, level).None?
    ensures NodeFor(entries, a, below).None?
  {
    if level < below {
      NothingBelow(entries, a, level, below - 1);
    }
  }

  // ---------- What the table and the pages have ----------

  type Page = seq<Byte>

  /** Bytes over those at a place. */
  function Put(under: seq<Byte>, at: nat, bytes: seq<Byte>): (s: seq<Byte>)
    requires at + |bytes| <= |under|
    ensures |s| == |under|
    ensures forall i | 0 <= i < |s| :: s[i] == if at <= i < at + |bytes| then bytes[i - at] else under[i]
  {
    under[..at] + bytes + under[at + |bytes|..]
  }

  /** The byte at an address: zero where there is no page. */
  function ByteIn(entries: Entries, pages: seq<Page>, a: Address): Byte {
    match Find(entries, a)
    case None => 0
    case Some(p) => if p < |pages| && |pages[p]| == PAGE_SIZE then pages[p][a % PAGE_SIZE] else 0
  }

  /** The byte of the word of an address, if the page is there. */
  lemma WordIsThere(entries: Entries, pages: seq<Page>, a: Address, k: nat)
    requires k < WORD_SIZE
    ensures ByteIn(entries, pages, WordBase(a) + k) ==
            match Find(entries, a)
            case None => 0
            case Some(p) => if p < |pages| && |pages[p]| == PAGE_SIZE then pages[p][WordAt(a) + k] else 0
  {
    ByteOfWord(a, k);
    FindByNumber(entries, a, WordBase(a) + k);
  }

  /** Addresses that a run of bytes within a page has, and where they are in it. */
  lemma InPage(a: Address, b: Address, size: nat)
    requires a % PAGE_SIZE + size <= PAGE_SIZE
    ensures a <= b < a + size ==> PageNumber(b) == PageNumber(a)
    ensures PageNumber(b) == PageNumber(a) ==> b % PAGE_SIZE - a % PAGE_SIZE == b - a
  {
    if a <= b < a + size {
      Quotient(b, PAGE_SIZE, PageNumber(a), a % PAGE_SIZE + (b - a));
    }
  }

  /** A page is all within the address space. */
  lemma RoomInPage(a: Address)
    ensures a - a % PAGE_SIZE + PAGE_SIZE <= WORD
  {
  }

  lemma ByteOfPage(entries: Entries, pages: seq<Page>, a: Address, k: nat)
    requires a % PAGE_SIZE + k < PAGE_SIZE && a + k < WORD
    requires Find(entries, a).Some? && Find(entries, a).value < |pages| && |pages[Find(entries, a).value]| == PAGE_SIZE
    ensures ByteIn(entries, pages, a + k) == pages[Find(entries, a).value][a % PAGE_SIZE + k]
  {
    var b := a + k;
    InPage(a, b, k + 1);
    FindByNumber(entries, a, b);
  }

  /** Bytes put into the page of an address change just their own addresses. */
  lemma PutByte(entries: Entries, nodes: seq<NodeInfo>, owners: seq<PageInfo>, pages: seq<Page>, p: nat,
                a: Address, bytes: seq<Byte>, b: Address)
    requires WellFormed(entries, nodes, owners) && Find(entries, a) == Some(p)
    requires p < |pages| && |pages[p]| == PAGE_SIZE && a % PAGE_SIZE + |bytes| <= PAGE_SIZE
    ensures ByteIn(entries, pages[p := Put(pages[p], a % PAGE_SIZE, bytes)], b)
            == if a <= b < a + |bytes| then bytes[b - a] else ByteIn(entries, pages, b)
  {
    FindServes(entries, nodes, owners, a);
    FindServes(entries, nodes, owners, b);
    FindByNumber(entries, a, b);
    InPage(a, b, |bytes|);
  }
}
