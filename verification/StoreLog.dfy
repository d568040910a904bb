/** A log of what a run stores, as pages of values with a bitmap of those that are set
    (native/bap_jit.cpp:53-117). A word of a bitmap is the set of its bits. */
module StoreLog {
  import opened Basics
  import opened PageTable
  import opened Bytes
  import opened Endian

  const WORDS: nat := 64
  const WORD_BITS: nat := 64
  /** How many pages there are, and a number that none has. */
  const PAGES: nat := 0x10_0000_0000_0000
  const NONE: nat := WORD - 1

  type Word = set<nat>

  datatype LogPage = LogPage(written: seq<Word>, values: seq<Byte>)

  /** What is known to be written. */
  type Written = map<Address, Byte>

  /** Bytes from an address on, each over what was written there. */
  function LogBytes(w: Written, a: Address, bytes: seq<Byte>): Written
    decreases |bytes|
  {
    if bytes == [] then w else LogBytes(w[a := bytes[0]], Next(a), bytes[1..])
  }

  /** Whether one instruction of the host could make an access, by its size and address. */
  predicate Aligned(a: Address, size: nat) {
    size in {1, 2, 4, 8} && a % size == 0
  }

  /** The bits of an access in a word of a bitmap. */
  function Mask(size: nat, k: nat): (mask: Word)
    requires k + size <= WORD_BITS
    ensures forall bit: nat :: bit in mask <==> k <= bit < k + size
    decreases size
  {
    if size == 0 then {} else {k} + Mask(size - 1, k + 1)
  }

  function WordOf(a: Address): (w: nat) ensures w < WORDS { a % PAGE_SIZE / WORD_BITS }

  function BitOf(a: Address): (bit: nat) ensures bit < WORD_BITS { a % WORD_BITS }

  /** A bit of an address is that of its offset in the page too. */
  lemma BitInPage(a: Address)
    ensures a % PAGE_SIZE == WordOf(a) * WORD_BITS + BitOf(a)
  {
    var offset := a % PAGE_SIZE;
    Quotient(a, WORD_BITS, a / PAGE_SIZE * 64 + offset / WORD_BITS, offset % WORD_BITS);
  }

  /** The bytes of an access that is in one word of the bitmap are those of its bits. */
  lemma Places(a: Address, b: Address, size: nat)
    requires BitOf(a) + size <= WORD_BITS
    ensures a % PAGE_SIZE + size <= PAGE_SIZE && a + size <= WORD
    ensures a <= b < a + size
            <==> PageNumber(b) == PageNumber(a) && WordOf(b) == WordOf(a) && BitOf(a) <= BitOf(b) < BitOf(a) + size
    ensures PageNumber(b) == PageNumber(a) ==> b % PAGE_SIZE - a % PAGE_SIZE == b - a
    ensures a <= b < a + size ==> BitOf(b) - BitOf(a) == b - a
  {
    BitInPage(a);
    BitInPage(b);
    var m, n := PageNumber(a), PageNumber(b);
    assert a == m * PAGE_SIZE + a % PAGE_SIZE && b == n * PAGE_SIZE + b % PAGE_SIZE;
    RoomInPage(a);
    PlacesApart(m, WordOf(a), BitOf(a), n, WordOf(b), BitOf(b), size);
  }

  lemma PlacesApart(m: nat, w: nat, k: nat, n: nat, v: nat, l: nat, size: nat)
    requires w < WORDS && v < WORDS && k + size <= WORD_BITS && l < WORD_BITS
    ensures var a, b := m * PAGE_SIZE + (w * WORD_BITS + k), n * PAGE_SIZE + (v * WORD_BITS + l);
            a <= b < a + size <==> n == m && v == w && k <= l < k + size
  {
  }

  /** Bytes at an offset of a page, with the bits from one on of a word of its bitmap. */
  function MarkPage(page: LogPage, w: nat, bit: nat, offset: nat, bytes: seq<Byte>): (marked: LogPage)
    requires |page.written| == WORDS && |page.values| == PAGE_SIZE && w < WORDS
    requires bit + |bytes| <= WORD_BITS && offset + |bytes| <= PAGE_SIZE
    ensures |marked.written| == WORDS && |marked.values| == PAGE_SIZE
  {
    LogPage(page.written[w := page.written[w] + Mask(|bytes|, bit)], Put(page.values, offset, bytes))
  }

  lemma MarkPageAt(page: LogPage, w: nat, bit: nat, offset: nat, bytes: seq<Byte>, w2: nat, bit2: nat, offset2: nat)
    requires |page.written| == WORDS && |page.values| == PAGE_SIZE && w < WORDS && w2 < WORDS && offset2 < PAGE_SIZE
    requires bit + |bytes| <= WORD_BITS && offset + |bytes| <= PAGE_SIZE
    requires offset <= offset2 < offset + |bytes| <==> w2 == w && bit <= bit2 < bit + |bytes|
    ensures var marked, inside := MarkPage(page, w, bit, offset, bytes), offset <= offset2 < offset + |bytes|;
            && (bit2 in marked.written[w2] <==> bit2 in page.written[w2] || inside)
            && marked.values[offset2] == if inside then bytes[offset2 - offset] else page.values[offset2]
  {
  }

  /** The pages by their numbers, and what they are at. */
  datatype Pages = Pages(slots: map<nat, nat>, items: seq<LogPage>) {
    ghost predicate Shaped() {
      && (forall n <- slots :: slots[n] < |items| && n < PAGES)
      && (forall m, n {:trigger slots[m], slots[n]} | m in slots && n in slots && slots[m] == slots[n] :: m == n)
      && (forall p | 0 <= p < |items| :: |items[p].written| == WORDS && |items[p].values| == PAGE_SIZE)
    }

    predicate Marked(a: Address)
      requires Shaped()
    {
      PageNumber(a) in slots && BitOf(a) in items[slots[PageNumber(a)]].written[WordOf(a)]
    }

    /** Whether a byte is marked just if it was written, with its value. */
    ghost predicate TellsAt(written: Written, a: Address)
      requires Shaped()
    {
      && (a in written <==> Marked(a))
      && (a in written ==> written[a] == items[slots[PageNumber(a)]].values[a % PAGE_SIZE])
    }

    ghost predicate Tells(written: Written) {
      Shaped() && forall a: Address {:trigger TellsAt(written, a)} :: TellsAt(written, a)
    }

    /** Bytes marked in a page, all in one word of its bitmap. */
    function Mark(p: nat, a: Address, bytes: seq<Byte>): Pages
      requires p < |items| && |items[p].written| == WORDS && |items[p].values| == PAGE_SIZE
      requires BitOf(a) + |bytes| <= WORD_BITS
    {
      Places(a, a, |bytes|);
      this.(items := items[p := MarkPage(items[p], WordOf(a), BitOf(a), a % PAGE_SIZE, bytes)])
    }

    lemma MarkTellsHere(written: Written, p: nat, a: Address, bytes: seq<Byte>, b: Address)
      requires Tells(written) && PageNumber(a) in slots && slots[PageNumber(a)] == p && BitOf(a) + |bytes| <= WORD_BITS
      requires PageNumber(b) == PageNumber(a) && Mark(p, a, bytes).Shaped()
      ensures Mark(p, a, bytes).TellsAt(LogBytes(written, a, bytes), b)
    {
      Places(a, a, |bytes|);
      Places(a, b, |bytes|);
      LogBytesAt(written, a, bytes, b);
      MarkPageAt(items[p], WordOf(a), BitOf(a), a % PAGE_SIZE, bytes, WordOf(b), BitOf(b), b % PAGE_SIZE);
      assert TellsAt(written, b);
      assert Mark(p, a, bytes).items[p] == MarkPage(items[p], WordOf(a), BitOf(a), a % PAGE_SIZE, bytes);
    }

    lemma MarkTellsElsewhere(written: Written, p: nat, a: Address, bytes: seq<Byte>, b: Address)
      requires Tells(written) && PageNumber(a) in slots && slots[PageNumber(a)] == p && BitOf(a) + |bytes| <= WORD_BITS
      requires PageNumber(b) != PageNumber(a) && Mark(p, a, bytes).Shaped()
      ensures Mark(p, a, bytes).TellsAt(LogBytes(written, a, bytes), b)
    {
      Places(a, b, |bytes|);
      LogBytesAt(written, a, bytes, b);
      assert TellsAt(written, b);
    }

    lemma MarkShaped(p: nat, a: Address, bytes: seq<Byte>)
      requires Shaped() && p < |items| && BitOf(a) + |bytes| <= WORD_BITS
      ensures Mark(p, a, bytes).Shaped()
    {
    }

    /** A page with nothing marked tells of nothing. */
    lemma EmptyPageTells(written: Written, number: nat, page: LogPage)
      requires Tells(written) && number !in slots && number < PAGES && |page.written| == WORDS
               && |page.values| == PAGE_SIZE
      requires forall w | 0 <= w < WORDS :: page.written[w] == {}
      ensures Pages(slots[number := |items|], items + [page]).Tells(written)
    {
      var more := Pages(slots[number := |items|], items + [page]);
      forall a: Address ensures more.TellsAt(written, a) {
        assert TellsAt(written, a);
      }
    }

    /** A byte on its own is a bit on its own. */
    lemma MarkByte(written: Written, a: Address, b: Byte)
      requires Tells(written) && PageNumber(a) in slots
      ensures LogBytes(written, a, [b]) == written[a := b]
      ensures |written[a := b]| == |written| + if Marked(a) then 0 else 1
      ensures var p := slots[PageNumber(a)];
              var page := items[p];
              Mark(p, a, [b]).items[p]
              == LogPage(page.written[WordOf(a) := page.written[WordOf(a)] + {BitOf(a)}], page.values[a % PAGE_SIZE := b])
    {
      assert TellsAt(written, a);
      MapStep(written, a, b);
      Places(a, a, 1);
      var page := items[slots[PageNumber(a)]];
      assert Mask(1, BitOf(a)) == {BitOf(a)};
      assert Put(page.values, a % PAGE_SIZE, [b]) == page.values[a % PAGE_SIZE := b];
    }

    /** To mark bytes is to write them. */
    lemma MarkTells(written: Written, p: nat, a: Address, bytes: seq<Byte>)
      requires Tells(written) && PageNumber(a) in slots && slots[PageNumber(a)] == p && BitOf(a) + |bytes| <= WORD_BITS
      ensures Mark(p, a, bytes).Tells(LogBytes(written, a, bytes))
    {
      var marked, now := Mark(p, a, bytes), LogBytes(written, a, bytes);
      MarkShaped(p, a, bytes);
      forall b: Address ensures marked.TellsAt(now, b) {
        if PageNumber(b) == PageNumber(a) {
          MarkTellsHere(written, p, a, bytes, b);
        } else {
          MarkTellsElsewhere(written, p, a, bytes, b);
        }
      }
    }

    lemma BitStands(written: Written, a: Address, size: nat, i: nat)
      requires Tells(written) && PageNumber(a) in slots && BitOf(a) + size <= WORD_BITS && i < size
      ensures StandsFor(written, a, items[slots[PageNumber(a)]].written[WordOf(a)], BitOf(a), i)
    {
      var b := a + i;
      Places(a, b, size);
      assert TellsAt(written, b);
    }

    /** The bits that weren't there before are as many as the bytes that weren't written. */
    lemma MarkCounts(written: Written, a: Address, bytes: seq<Byte>)
      requires Tells(written) && PageNumber(a) in slots && BitOf(a) + |bytes| <= WORD_BITS
      ensures |LogBytes(written, a, bytes)|
              == |written| + |Mask(|bytes|, BitOf(a)) - items[slots[PageNumber(a)]].written[WordOf(a)]|
    {
      var word := items[slots[PageNumber(a)]].written[WordOf(a)];
      forall i: nat | i < |bytes| ensures StandsFor(written, a, word, BitOf(a), i) {
        BitStands(written, a, |bytes|, i);
      }
      NewBitsAreOnes(|bytes|, BitOf(a), word, Mask(|bytes|, BitOf(a)) - word);
      CountNew(written, a, bytes, word, BitOf(a));
    }
  }

  lemma {:induction false} LogBytesAt(w: Written, a: Address, bytes: seq<Byte>, at: Address)
    requires a + |bytes| <= WORD
    ensures at in LogBytes(w, a, bytes) <==> at in w || a <= at < a + |bytes|
    ensures a <= at < a + |bytes| ==> LogBytes(w, a, bytes)[at] == bytes[at - a]
    ensures at in w && !(a <= at < a + |bytes|) ==> LogBytes(w, a, bytes)[at] == w[at]
    decreases |bytes|
  {
    if |bytes| > 1 {
      LogBytesAt(w[a := bytes[0]], a + 1, bytes[1..], at);
    }
  }

  predicate StandsFor(w: Written, a: Address, word: Word, k: nat, i: nat) {
    a + i in w <==> k + i in word
  }

  lemma MapStep(w: Written, a: Address, b: Byte)
    ensures |w[a := b]| == |w| + if a in w then 0 else 1
  {
    assert w[a := b].Keys == w.Keys + {a};
    assert |w.Keys| == |w| && |w[a := b].Keys| == |w[a := b]|;
  }

  /** How many bits of a mask a word doesn't have. */
  function NewBits(n: nat, k: nat, word: Word): nat {
    if n == 0 then 0 else (if k in word then 0 else 1) + NewBits(n - 1, k + 1, word)
  }

  lemma {:induction false} NewBitsAreOnes(n: nat, k: nat, word: Word, ones: set<nat>)
    requires forall bit: nat :: bit in ones <==> k <= bit < k + n && bit !in word
    ensures |ones| == NewBits(n, k, word)
    decreases n
  {
    if n == 0 {
      assert ones == {};
    } else {
      var rest := ones - {k};
      NewBitsAreOnes(n - 1, k + 1, word, rest);
      assert k in ones ==> ones == rest + {k};
      assert k !in ones ==> ones == rest;
    }
  }

  /** How many of some bytes weren't written, by the bits that stand for them. */
  lemma {:induction false} CountNew(w: Written, a: Address, bytes: seq<Byte>, word: Word, k: nat)
    requires k + |bytes| <= WORD_BITS && a + |bytes| <= WORD
    requires forall i: nat | i < |bytes| :: StandsFor(w, a, word, k, i)
    ensures |LogBytes(w, a, bytes)| == |w| + NewBits(|bytes|, k, word)
    decreases |bytes|
  {
    if bytes != [] {
      var next, rest := w[a := bytes[0]], bytes[1..];
      MapStep(w, a, bytes[0]);
      assert StandsFor(w, a, word, k, 0);
      if rest == [] {
        assert LogBytes(w, a, bytes) == next;
      } else {
        var b, j := a + 1, k + 1;
        forall i: nat | i < |rest| ensures StandsFor(next, b, word, j, i) {
          assert StandsFor(w, a, word, k, i + 1);
        }
        CountNew(next, b, rest, word, j);
      }
    }
  }

  /** The bits of such an access don't cross words of the bitmap. */
  lemma AlignedFits(a: Address, size: nat)
    requires Aligned(a, size)
    ensures BitOf(a) + size <= WORD_BITS
  {
  }

  class StoreLog {
    var slots: map<nat, nat>
    var items: seq<LogPage>
    // The page that the last store was on.
    var lastNumber: nat
    var last: nat
    // How many bytes were written, and which.
    var count: nat
    ghost var written: Written

    ghost predicate Valid()
      reads this
    {
      && Pages(slots, items).Tells(written) && count == |written|
      && (lastNumber != NONE ==> lastNumber in slots && slots[lastNumber] == last)
    }

    constructor ()
      ensures Valid() && written == map[]
    {
      slots, items, lastNumber, last, count, written := map[], [], NONE, 0, 0, map[];
      new;
      forall a: Address ensures Pages(slots, items).TellsAt(written, a) {}
    }

    /** The page of a number, made if it isn't there: most often that of the last store. */
    method PageOf(number: nat) returns (p: nat)
      requires Valid() && number < PAGES
      modifies this`slots, this`items, this`lastNumber, this`last
      ensures Valid() && number in slots && slots[number] == p
    {
      if number == lastNumber {
        return last;
      }
      if number !in slots {
        var page := LogPage(seq(WORDS, _ => {}), seq(PAGE_SIZE, _ => 0));
        Pages(slots, items).EmptyPageTells(written, number, page);
        slots, items := slots[number := |items|], items + [page];
      }
      lastNumber, last := number, slots[number];
      p := last;
    }

    /** Notes the bytes of a store, each over what was written there. */
    method Note(a: Address, size: nat, big: bool, value: nat)
      requires Valid()
      modifies this
      ensures Valid() && written == LogBytes(old(written), a, BytesOf(value, size, big))
    {
      var bytes := BytesOf(value, size, big);
      if Aligned(a, size) {
        NoteAligned(a, bytes);
      } else {
        NoteEach(a, bytes);
      }
    }

    /** Where no word of the bitmap is crossed, all bits are set and all values copied at once. */
    method NoteAligned(a: Address, bytes: seq<Byte>)
      requires Valid() && Aligned(a, |bytes|)
      modifies this
      ensures Valid() && written == LogBytes(old(written), a, bytes)
    {
      AlignedFits(a, |bytes|);
      var p := PageOf(PageNumber(a));
      ghost var before := Pages(slots, items);
      var word, mask := items[p].written[WordOf(a)], Mask(|bytes|, BitOf(a));
      before.MarkTells(written, p, a, bytes);
      before.MarkCounts(written, a, bytes);
      count := count + |mask - word|;
      items := items[p := LogPage(items[p].written[WordOf(a) := word + mask], Put(items[p].values, a % PAGE_SIZE, bytes))];
      written := LogBytes(written, a, bytes);
    }

    /** A byte at a time. */
    method NoteEach(a: Address, bytes: seq<Byte>)
      requires Valid()
      modifies this
      ensures Valid() && written == LogBytes(old(written), a, bytes)
    {
      var at := a;
      for index := 0 to |bytes|
        invariant Valid() && LogBytes(written, at, bytes[index..]) == LogBytes(old(written), a, bytes)
      {
        assert bytes[index..][1..] == bytes[index + 1..];
        NoteByte(at, bytes[index]);
        at := Next(at);
      }
    }

    method NoteByte(a: Address, b: Byte)
      requires Valid()
      modifies this
      ensures Valid() && written == old(written)[a := b]
    {
      var p := PageOf(PageNumber(a));
      ghost var before := Pages(slots, items);
      before.MarkTells(written, p, a, [b]);
      before.MarkByte(written, a, b);
      var word := items[p].written[WordOf(a)];
      if BitOf(a) !in word {
        items := items[p := items[p].(written := items[p].written[WordOf(a) := word + {BitOf(a)}])];
        count := count + 1;
      } else {
        assert word + {BitOf(a)} == word;
      }
      assert items[p].written == before.items[p].written[WordOf(a) := word + {BitOf(a)}];
      items := items[p := items[p].(values := items[p].values[a % PAGE_SIZE := b])];
      assert items == before.items[p := before.Mark(p, a, [b]).items[p]];
      written := written[a := b];
    }

    /** Each byte written, once, with its value: the pages in any order, and of each the bits of its bitmap. */
    method Report() returns (report: seq<(Address, Byte)>)
      requires Valid()
      ensures |report| == count && Collected(report) == written
      ensures forall i, j | 0 <= i < j < |report| :: report[i].0 != report[j].0
    {
      report := [];
      var todo := slots.Keys;
      forall a: Address | a in written ensures PageNumber(a) in todo {
        assert Pages(slots, items).TellsAt(written, a);
      }
      TellsNothing(written, todo);
      while todo != {}
        invariant todo <= slots.Keys && Lists(report) && Told(Collected(report), written, todo, NONE, 0)
        decreases todo
      {
        var number :| number in todo;
        ghost var rest := todo - {number};
        assert rest + {number} == todo;
        report := ReportPage(report, number, rest);
        todo := todo - {number};
      }
      TellsAll(Collected(report), written);
    }

    method ReportPage(before: seq<(Address, Byte)>, number: nat, ghost todo: set<nat>)
      returns (report: seq<(Address, Byte)>)
      requires Valid() && number in slots && number !in todo
      requires Lists(before) && Told(Collected(before), written, todo + {number}, NONE, 0)
      ensures Lists(report) && Told(Collected(report), written, todo, NONE, 0)
    {
      report := before;
      ToldPage(Collected(report), written, todo, number);
      var page := items[slots[number]];
      for w := 0 to WORDS
        invariant Lists(report) && Told(Collected(report), written, todo, number, w * WORD_BITS)
      {
        for bit := 0 to WORD_BITS
          invariant Lists(report) && Told(Collected(report), written, todo, number, w * WORD_BITS + bit)
        {
          var a := AddressAt(number, w, bit);
          assert Pages(slots, items).TellsAt(written, a);
          ghost var told := Collected(report);
          assert ToldAt(told, written, todo, number, w * WORD_BITS + bit, a);
          if bit in page.written[w] {
            ListsOneMore(report, a, page.values[w * WORD_BITS + bit]);
            report := report + [(a, page.values[w * WORD_BITS + bit])];
          }
          ToldOneMore(told, Collected(report), written, todo, number, w * WORD_BITS + bit, a);
        }
      }
      ToldPage(Collected(report), written, todo, number);
    }
  }

  /** The address of a bit of the bitmap of a page. */
  function AddressAt(number: nat, w: nat, bit: nat): (a: Address)
    requires number < PAGES && w < WORDS && bit < WORD_BITS
    ensures PageNumber(a) == number && WordOf(a) == w && BitOf(a) == bit && a % PAGE_SIZE == w * WORD_BITS + bit
  {
    var a := number * PAGE_SIZE + w * WORD_BITS + bit;
    Quotient(a, PAGE_SIZE, number, w * WORD_BITS + bit);
    BitInPage(a);
    a
  }

  /** What pairs of an address and a byte say, later over earlier. */
  function Collected(report: seq<(Address, Byte)>): Written {
    if report == [] then map[]
    else Collected(report[..|report| - 1])[report[|report| - 1].0 := report[|report| - 1].1]
  }

  /** Whether no address is in a report twice. */
  ghost predicate Lists(report: seq<(Address, Byte)>) {
    && |report| == |Collected(report)|
    && (forall i | 0 <= i < |report| :: report[i].0 in Collected(report))
    && (forall i, j | 0 <= i < j < |report| :: report[i].0 != report[j].0)
  }

  lemma ListsOneMore(report: seq<(Address, Byte)>, a: Address, b: Byte)
    requires Lists(report) && a !in Collected(report)
    ensures Lists(report + [(a, b)]) && Collected(report + [(a, b)]) == Collected(report)[a := b]
  {
    var more := report + [(a, b)];
    assert more[..|more| - 1] == report;
    MapStep(Collected(report), a, b);
  }

  /** Whether what is told is what was written in pages that aren't to come, and before an offset of one. */
  ghost predicate Told(told: Written, written: Written, todo: set<nat>, number: nat, offset: nat) {
    forall a: Address {:trigger ToldAt(told, written, todo, number, offset, a)} ::
        ToldAt(told, written, todo, number, offset, a)
  }

  lemma TellsAll(told: Written, written: Written)
    requires Told(told, written, {}, NONE, 0)
    ensures told == written
  {
    forall a: Address ensures (a in told <==> a in written) && (a in told ==> told[a] == written[a]) {
      assert ToldAt(told, written, {}, NONE, 0, a);
    }
  }

  lemma TellsNothing(written: Written, todo: set<nat>)
    requires forall a: Address | a in written :: PageNumber(a) in todo
    ensures Told(map[], written, todo, NONE, 0)
  {
  }

  lemma ToldOneMore(told: Written, next: Written, written: Written, todo: set<nat>, number: nat, offset: nat, a: Address)
    requires Told(told, written, todo, number, offset) && number !in todo
    requires PageNumber(a) == number && a % PAGE_SIZE == offset
    requires next == if a in written then told[a := written[a]] else told
    ensures Told(next, written, todo, number, offset + 1)
  {
    var after := offset + 1;
    forall b: Address ensures ToldAt(next, written, todo, number, after, b) {
      assert ToldAt(told, written, todo, number, offset, b);
    }
  }

  /** A page is told when all of its offsets are, and none of it before. */
  lemma ToldPage(told: Written, written: Written, todo: set<nat>, number: nat)
    ensures number < PAGES && number !in todo && Told(told, written, todo + {number}, NONE, 0)
            ==> Told(told, written, todo, number, 0)
    ensures Told(told, written, todo, number, PAGE_SIZE) ==> Told(told, written, todo, NONE, 0)
  {
    if number < PAGES && number !in todo && Told(told, written, todo + {number}, NONE, 0) {
      forall a: Address ensures ToldAt(told, written, todo, number, 0, a) {
        assert ToldAt(told, written, todo + {number}, NONE, 0, a);
      }
    }
    if Told(told, written, todo, number, PAGE_SIZE) {
      forall a: Address ensures ToldAt(told, written, todo, NONE, 0, a) {
        assert ToldAt(told, written, todo, number, PAGE_SIZE, a);
      }
    }
  }

  ghost predicate ToldAt(told: Written, written: Written, todo: set<nat>, number: nat, offset: nat, a: Address) {
    && (a in told <==> a in written && PageNumber(a) !in todo && (PageNumber(a) == number ==> a % PAGE_SIZE < offset))
    && (a in told ==> told[a] == written[a])
  }

  // ---------- A report over a memory ----------

  /** A memory with what was written over it. */
  ghost function Overlay(m: Memory, written: Written): Memory {
    imap a: Address | a in m :: if a in written then written[a] else m[a]
  }

  lemma OverlayOne(m: Memory, written: Written, a: Address, b: Byte)
    requires Total(m)
    ensures Overlay(m, written[a := b]) == Write(Overlay(m, written), a, b)
  {
  }

  /** Bytes stored over a memory that was written over are bytes written over it. */
  lemma {:induction false} OverlayStores(m: Memory, written: Written, a: Address, bytes: seq<Byte>)
    requires Total(m)
    ensures Overlay(m, LogBytes(written, a, bytes)) == StoreBytes(Overlay(m, written), a, bytes)
    decreases |bytes|
  {
    if bytes != [] {
      OverlayOne(m, written, a, bytes[0]);
      OverlayStores(m, written[a := bytes[0]], Next(a), bytes[1..]);
    }
  }

  ghost function AddressesOf(report: seq<(Address, Byte)>): seq<Address> {
    seq(|report|, i requires 0 <= i < |report| => report[i].0)
  }

  ghost function ValuesOf(report: seq<(Address, Byte)>): seq<Byte> {
    seq(|report|, i requires 0 <= i < |report| => report[i].1)
  }

  /** To write the pairs of a report, in order, is to overlay what it says. */
  lemma {:induction false} ReportOverlays(m: Memory, report: seq<(Address, Byte)>)
    requires Total(m)
    ensures WritePairs(m, AddressesOf(report), ValuesOf(report)) == Overlay(m, Collected(report))
    decreases |report|
  {
    if report == [] {
      assert Overlay(m, map[]) == m;
    } else {
      var rest, n := report[..|report| - 1], |report| - 1;
      ReportOverlays(m, rest);
      OverlayOne(m, Collected(rest), report[n].0, report[n].1);
      var addresses, values := AddressesOf(report), ValuesOf(report);
      assert addresses[..n] == AddressesOf(rest) && values[..n] == ValuesOf(rest);
      assert addresses[n..] == [report[n].0] && values[n..] == [report[n].1];
      WritePairsSplit(m, addresses, values, n);
      WriteOne(WritePairs(m, addresses[..n], values[..n]), report[n].0, report[n].1);
    }
  }

  lemma WriteOne(m: Memory, a: Address, b: Byte)
    ensures WritePairs(m, [a], [b]) == Write(m, a, b)
  {
    var addresses, values := [a], [b];
    assert addresses[1..] == [] && values[1..] == [];
    assert WritePairs(Write(m, a, b), addresses[1..], values[1..]) == Write(m, a, b);
  }
}
