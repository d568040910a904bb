/** The SHA instructions of x86 (tools/x86_model.py:307-361), in the sequences that hash a block (364-403), against the
    hash computations of FIPS 180-4: section 6.1.2 for SHA-1 and section 6.2.2 for SHA-256, for every block and every
    chaining state. Sums are modulo 2^32, as those of `bv32` are. */
module Sha {
  type Word = bv32

  /** A register of 128 bits, as its four words, the most significant first. */
  datatype Register = Register(l3: Word, l2: Word, l1: Word, l0: Word)

  function Rol(x: Word, n: nat): Word
    requires 0 < n < 32
  {
    (x << n) | (x >> (32 - n))
  }

  function Ror(x: Word, n: nat): Word
    requires 0 < n < 32
  {
    (x >> n) | (x << (32 - n))
  }

  function Add(x: Word, y: Word): Word { x + y }

  function Xor(x: Word, y: Word): Word { x ^ y }

  // ---------- FIPS 180-4, sections 4.1.1, 4.2.1 and 6.1.2: SHA-1 ----------

  /** The function of a round, by which twenty it is of. */
  function F1(twenty: nat, x: Word, y: Word, z: Word): Word {
    match twenty
    case 0 => (x & y) ^ (!x & z)
    case 2 => (x & y) ^ (x & z) ^ (y & z)
    case _ => x ^ y ^ z
  }

  function K1(twenty: nat): Word {
    match twenty
    case 0 => 0x5a827999
    case 1 => 0x6ed9eba1
    case 2 => 0x8f1bbcdc
    case _ => 0xca62c1d6
  }

  datatype State1 = State1(a: Word, b: Word, c: Word, d: Word, e: Word)

  function T1(rotated: Word, f: Word, e: Word, k: Word, w: Word): Word {
    rotated + f + e + k + w
  }

  function Round1(s: State1, twenty: nat, w: Word): State1 {
    State1(T1(Rol(s.a, 5), F1(twenty, s.b, s.c, s.d), s.e, K1(twenty), w), s.a, Rol(s.b, 30), s.c, s.d)
  }

  function NewWord1(x: Word, y: Word, z: Word, u: Word): Word { Rol(x ^ y ^ z ^ u, 1) }

  /** The message schedule. */
  function W1(block: seq<Word>, t: nat): Word
    requires |block| == 16
  {
    if t < 16 then block[t]
    else NewWord1(W1(block, t - 3), W1(block, t - 8), W1(block, t - 14), W1(block, t - 16))
  }

  /** The working variables after some rounds. */
  function After1(h: State1, block: seq<Word>, n: nat): State1
    requires |block| == 16
  {
    if n == 0 then h else Round1(After1(h, block, n - 1), (n - 1) / 20, W1(block, n - 1))
  }

  function Feed1(h: State1, s: State1): State1 {
    State1(Add(h.a, s.a), Add(h.b, s.b), Add(h.c, s.c), Add(h.d, s.d), Add(h.e, s.e))
  }

  /** The chaining state after a block, of 80 rounds: five for each word of it. */
  function Compress1(h: State1, block: seq<Word>): State1
    requires |block| == 16
  {
    Feed1(h, After1(h, block, 5 * |block|))
  }

  /** All that the section works out of a block: the words of its schedule, and the working variables from round to
      round. */
  datatype Hash1 = Hash1(words: seq<Word>, states: seq<State1>)

  ghost predicate WordIs1(words: seq<Word>, n: nat)
    requires 16 <= n < |words|
  {
    words[n] == NewWord1(words[n - 3], words[n - 8], words[n - 14], words[n - 16])
  }

  ghost predicate RoundIs1(hash: Hash1, n: nat)
    requires n < |hash.words| && n + 1 < |hash.states|
  {
    hash.states[n + 1] == Round1(hash.states[n], n / 20, hash.words[n])
  }

  ghost predicate Hashes1(hash: Hash1) {
    && |hash.words| == 80 && |hash.states| == 81
    && (forall n | 16 <= n < 80 :: WordIs1(hash.words, n))
    && (forall n | 0 <= n < 80 :: RoundIs1(hash, n))
  }

  ghost function HashOf1(h: State1, block: seq<Word>): (hash: Hash1)
    requires |block| == 16
    ensures |hash.words| == 80 && |hash.states| == 81
  {
    Hash1(seq(80, n requires 0 <= n < 80 => W1(block, n)), seq(81, n requires 0 <= n < 81 => After1(h, block, n)))
  }

  lemma WordsOfHash1(h: State1, block: seq<Word>)
    requires |block| == 16
    ensures block <= HashOf1(h, block).words && forall n | 16 <= n < 80 :: WordIs1(HashOf1(h, block).words, n)
  {
    forall n | 16 <= n < 80 ensures WordIs1(HashOf1(h, block).words, n) {
      assert HashOf1(h, block).words[n] == W1(block, n);
    }
  }

  lemma StatesOfHash1(h: State1, block: seq<Word>)
    requires |block| == 16
    ensures HashOf1(h, block).states[0] == h && forall n | 0 <= n < 80 :: RoundIs1(HashOf1(h, block), n)
    ensures Compress1(h, block) == Feed1(h, HashOf1(h, block).states[80])
  {
    forall n | 0 <= n < 80 ensures RoundIs1(HashOf1(h, block), n) {
      assert HashOf1(h, block).states[n + 1] == After1(h, block, n + 1);
    }
  }

  // ---------- The instructions of SHA-1 ----------

  /** Rounds with the same function and constant, one for each word. */
  function Rounds1(s: State1, twenty: nat, words: seq<Word>): State1 {
    if words == [] then s else Round1(Rounds1(s, twenty, words[..|words| - 1]), twenty, words[|words| - 1])
  }

  function Sum5(f: Word, rotated: Word, w: Word, e: Word, k: Word): Word {
    f + rotated + w + e + k
  }

  /** Four rounds, with nothing for E but what is in the first word. */
  method Sha1Rnds4(x: Register, y: Register, imm: nat) returns (r: Register)
    ensures var s := Rounds1(State1(x.l3, x.l2, x.l1, x.l0, 0), imm % 4, [y.l3, y.l2, y.l1, y.l0]);
            r == Register(s.a, s.b, s.c, s.d)
  {
    var a, b, c, d, e: Word := x.l3, x.l2, x.l1, x.l0, 0;
    ghost var start := State1(a, b, c, d, e);
    var twenty, words := imm % 4, [y.l3, y.l2, y.l1, y.l0];
    for i := 0 to 4
      invariant State1(a, b, c, d, e) == Rounds1(start, twenty, words[..i])
    {
      RoundsMore(start, twenty, words, i);
      RoundOrder(a, b, c, d, e, twenty, words[i]);
      a, b, c, d, e := Sum5(F1(twenty, b, c, d), Rol(a, 5), words[i], e, K1(twenty)), a, Rol(b, 30), c, d;
    }
    assert words[..4] == words;
    r := Register(a, b, c, d);
  }

  lemma RoundsMore(s: State1, twenty: nat, words: seq<Word>, i: nat)
    requires i < |words|
    ensures Rounds1(s, twenty, words[..i + 1]) == Round1(Rounds1(s, twenty, words[..i]), twenty, words[i])
  {
    assert words[..i + 1][..i] == words[..i];
  }

  // Sums are put in another order as they are written out, which the solver does for itself, and what each function is
  // of its parts is said apart from that.

  lemma T1Is(rotated: Word, f: Word, e: Word, k: Word, w: Word)
    ensures T1(rotated, f, e, k, w) == rotated + f + e + k + w
  {
  }

  lemma Sum5Is(f: Word, rotated: Word, w: Word, e: Word, k: Word)
    ensures Sum5(f, rotated, w, e, k) == f + rotated + w + e + k
  {
  }

  lemma Turned(rotated: Word, f: Word, e: Word, k: Word, w: Word)
    ensures f + rotated + w + e + k == rotated + f + e + k + w
    ensures rotated + f + 0 + k + (w + e) == rotated + f + e + k + w
  {
  }

  lemma SumOrder(f: Word, rotated: Word, w: Word, e: Word, k: Word)
    ensures Sum5(f, rotated, w, e, k) == T1(rotated, f, e, k, w)
  {
    T1Is(rotated, f, e, k, w);
    Sum5Is(f, rotated, w, e, k);
    Turned(rotated, f, e, k, w);
  }

  lemma RoundOrder(a: Word, b: Word, c: Word, d: Word, e: Word, twenty: nat, w: Word)
    ensures State1(Sum5(F1(twenty, b, c, d), Rol(a, 5), w, e, K1(twenty)), a, Rol(b, 30), c, d)
            == Round1(State1(a, b, c, d, e), twenty, w)
  {
    SumOrder(F1(twenty, b, c, d), Rol(a, 5), w, e, K1(twenty));
  }

  function Sha1NextE(x: Register, y: Register): Register {
    y.(l3 := Add(y.l3, Rol(x.l3, 30)))
  }

  function Sha1Msg1(x: Register, y: Register): Register {
    Register(Xor(x.l1, x.l3), Xor(x.l0, x.l2), Xor(y.l3, x.l1), Xor(y.l2, x.l0))
  }

  function Sha1Msg2(x: Register, y: Register): Register {
    var w16 := Rol(Xor(x.l3, y.l2), 1);
    Register(w16, Rol(Xor(x.l2, y.l1), 1), Rol(Xor(x.l1, y.l0), 1), Rol(Xor(x.l0, w16), 1))
  }

  function XorAll(x: Register, y: Register): Register {
    Register(Xor(x.l3, y.l3), Xor(x.l2, y.l2), Xor(x.l1, y.l1), Xor(x.l0, y.l0))
  }

  lemma XorIs(x: Word, y: Word)
    ensures Xor(x, y) == x ^ y
  {
  }

  lemma NewWord1Is(x: Word, y: Word, z: Word, u: Word)
    ensures NewWord1(x, y, z, u) == Rol(x ^ y ^ z ^ u, 1)
  {
  }

  lemma TurnedBits(p: Word, q: Word, r: Word, s: Word)
    ensures q ^ p ^ r ^ s == s ^ r ^ q ^ p
  {
  }

  lemma XorOrder(p: Word, q: Word, r: Word, s: Word)
    ensures Rol(Xor(Xor(Xor(q, p), r), s), 1) == NewWord1(s, r, q, p)
  {
    XorIs(q, p);
    XorIs(q ^ p, r);
    XorIs(q ^ p ^ r, s);
    NewWord1Is(s, r, q, p);
    TurnedBits(p, q, r, s);
  }

  /** Four words of the schedule. */
  function Words1(words: seq<Word>, t: nat): Register
    requires 4 * t + 3 < |words|
  {
    Register(words[4 * t], words[4 * t + 1], words[4 * t + 2], words[4 * t + 3])
  }

  /** What the instructions of the schedule make of sixteen words. */
  function Next1(x: Register, y: Register, z: Register, u: Register): Register {
    Sha1Msg2(XorAll(Sha1Msg1(x, y), z), u)
  }

  /** A word by the four before it that it is of, in the order of the instructions. */
  function Sum1(p: Word, q: Word, r: Word, s: Word): Word { Rol(Xor(Xor(Xor(q, p), r), s), 1) }

  lemma FourMore1(x: Register, y: Register, z: Register, u: Register, n: Register)
    requires n.l3 == Sum1(x.l3, x.l1, z.l3, u.l2) && n.l2 == Sum1(x.l2, x.l0, z.l2, u.l1)
    requires n.l1 == Sum1(x.l1, y.l3, z.l1, u.l0) && n.l0 == Sum1(x.l0, y.l2, z.l0, n.l3)
    ensures Next1(x, y, z, u) == n
  {
  }

  lemma NextWord1(words: seq<Word>, n: nat)
    requires 16 <= n < |words| && WordIs1(words, n)
    ensures words[n] == Sum1(words[n - 16], words[n - 14], words[n - 8], words[n - 3])
  {
    XorOrder(words[n - 16], words[n - 14], words[n - 8], words[n - 3]);
  }

  /** The instructions of the schedule give its next four words. */
  lemma NextWords1(words: seq<Word>, t: nat)
    requires t >= 4 && 4 * t + 3 < |words|
    requires forall n | 4 * t <= n < 4 * t + 4 :: WordIs1(words, n)
    ensures Next1(Words1(words, t - 4), Words1(words, t - 3), Words1(words, t - 2), Words1(words, t - 1)) == Words1(words, t)
  {
    NextWord1(words, 4 * t);
    NextWord1(words, 4 * t + 1);
    NextWord1(words, 4 * t + 2);
    NextWord1(words, 4 * t + 3);
    FourMore1(Words1(words, t - 4), Words1(words, t - 3), Words1(words, t - 2), Words1(words, t - 1), Words1(words, t));
  }

  lemma FoldSum(rotated: Word, f: Word, e: Word, k: Word, w: Word)
    ensures T1(rotated, f, 0, k, w + e) == T1(rotated, f, e, k, w)
  {
    T1Is(rotated, f, 0, k, w + e);
    T1Is(rotated, f, e, k, w);
    Turned(rotated, f, e, k, w);
  }

  lemma AddIs(x: Word, y: Word)
    ensures Add(x, y) == x + y
  {
  }

  lemma Folded(rotated: Word, f: Word, e: Word, k: Word, w: Word)
    ensures T1(rotated, f, 0, k, Add(w, e)) == T1(rotated, f, e, k, w)
  {
    FoldSum(rotated, f, e, k, w);
    AddIs(w, e);
  }

  /** What is in the word of a round of E is as if it were in E. */
  lemma FoldE(s: State1, twenty: nat, w: Word)
    ensures Round1(s.(e := 0), twenty, Add(w, s.e)) == Round1(s, twenty, w)
  {
    Folded(Rol(s.a, 5), F1(twenty, s.b, s.c, s.d), s.e, K1(twenty), w);
  }

  function Four1(s: State1, twenty: nat, w: Register): State1 {
    Round1(Round1(Round1(Round1(s, twenty, w.l3), twenty, w.l2), twenty, w.l1), twenty, w.l0)
  }

  lemma FourWords(s: State1, twenty: nat, w: Register)
    ensures Rounds1(s, twenty, [w.l3, w.l2, w.l1, w.l0]) == Four1(s, twenty, w)
  {
    var words := [w.l3, w.l2, w.l1, w.l0];
    assert words[..0] == [] && words[..4] == words;
    RoundsMore(s, twenty, words, 0);
    RoundsMore(s, twenty, words, 1);
    RoundsMore(s, twenty, words, 2);
    RoundsMore(s, twenty, words, 3);
  }

  /** After four rounds, E is what A was before, rotated. */
  lemma FourShift(s: State1, twenty: nat, w: Register)
    ensures Four1(s, twenty, w).e == Rol(s.a, 30)
  {
  }

  lemma FourInTurn(s0: State1, s1: State1, s2: State1, s3: State1, s4: State1, twenty: nat, w: Register)
    requires s1 == Round1(s0, twenty, w.l3) && s2 == Round1(s1, twenty, w.l2)
    requires s3 == Round1(s2, twenty, w.l1) && s4 == Round1(s3, twenty, w.l0)
    ensures s4 == Four1(s0, twenty, w)
  {
  }

  lemma OneOfHash1(hash: Hash1, n: nat, twenty: nat)
    requires Hashes1(hash) && n < 80 && n / 20 == twenty
    ensures hash.states[n + 1] == Round1(hash.states[n], twenty, hash.words[n])
  {
    assert RoundIs1(hash, n);
  }

  lemma FourOfHash1(hash: Hash1, t: nat)
    requires Hashes1(hash) && t < 20
    ensures hash.states[4 * t + 4] == Four1(hash.states[4 * t], t / 5, Words1(hash.words, t))
  {
    var n := 4 * t;
    OneOfHash1(hash, n, t / 5);
    OneOfHash1(hash, n + 1, t / 5);
    OneOfHash1(hash, n + 2, t / 5);
    OneOfHash1(hash, n + 3, t / 5);
    FourInTurn(hash.states[n], hash.states[n + 1], hash.states[n + 2], hash.states[n + 3], hash.states[n + 4], t / 5,
               Words1(hash.words, t));
  }

  /** Four rounds of a block by one instruction, with E in the first of their words. */
  lemma FourByOne(hash: Hash1, t: nat, w: Register)
    requires Hashes1(hash) && t < 20
    requires w == Words1(hash.words, t).(l3 := Add(hash.words[4 * t], hash.states[4 * t].e))
    ensures Rounds1(hash.states[4 * t].(e := 0), t / 5, [w.l3, w.l2, w.l1, w.l0]) == hash.states[4 * t + 4]
    ensures hash.states[4 * t + 4].e == Rol(hash.states[4 * t].a, 30)
  {
    var s := hash.states[4 * t];
    FourWords(s.(e := 0), t / 5, w);
    FoldE(s, t / 5, hash.words[4 * t]);
    FourOfHash1(hash, t);
    FourShift(s, t / 5, Words1(hash.words, t));
  }

  /** Whether registers have the words of a schedule, as far as they go. */
  ghost predicate Schedule1(w: seq<Register>, words: seq<Word>) {
    4 * |w| <= |words| && forall j | 0 <= j < |w| :: w[j] == Words1(words, j)
  }

  method LoadWords1(block: seq<Word>, ghost words: seq<Word>) returns (w: seq<Register>)
    requires |block| == 16 && block <= words
    ensures |w| == 4 && Schedule1(w, words)
  {
    w := [];
    for i := 0 to 4
      invariant |w| == i && Schedule1(w, words)
    {
      w := w + [Register(block[4 * i], block[4 * i + 1], block[4 * i + 2], block[4 * i + 3])];
    }
  }

  method MoreWords1(w: seq<Register>, ghost words: seq<Word>) returns (more: seq<Register>)
    requires 4 <= |w| && 4 * |w| + 3 < |words| && Schedule1(w, words)
    requires forall n | 4 * |w| <= n < 4 * |w| + 4 :: WordIs1(words, n)
    ensures |more| == |w| + 1 && Schedule1(more, words)
  {
    var t := |w|;
    NextWords1(words, t);
    more := w + [Next1(w[t - 4], w[t - 3], w[t - 2], w[t - 1])];
  }

  /** Whether registers have the working variables after some rounds: E is in the second, rotated but at the start. */
  ghost predicate At1(abcd: Register, e: Register, s: State1, n: nat) {
    abcd == Register(s.a, s.b, s.c, s.d) && s.e == if n == 0 then e.l3 else Rol(e.l3, 30)
  }

  method FourRounds1(abcd: Register, e: Register, words: Register, t: nat, ghost hash: Hash1) returns (next: Register)
    requires Hashes1(hash) && t < 20 && words == Words1(hash.words, t) && At1(abcd, e, hash.states[4 * t], 4 * t)
    ensures At1(next, abcd, hash.states[4 * t + 4], 4 * t + 4)
  {
    var w := if t == 0 then words.(l3 := Add(words.l3, e.l3)) else Sha1NextE(e, words);
    FourByOne(hash, t, w);
    assert t / 5 % 4 == t / 5;
    next := Sha1Rnds4(abcd, w, t / 5);
  }

  function Finish1(h: State1, abcd: Register, e: Register): State1 {
    State1(Add(h.a, abcd.l3), Add(h.b, abcd.l2), Add(h.c, abcd.l1), Add(h.d, abcd.l0), Add(h.e, Rol(e.l3, 30)))
  }

  lemma FinishFeeds1(h: State1, abcd: Register, e: Register, s: State1)
    requires At1(abcd, e, s, 80)
    ensures Finish1(h, abcd, e) == Feed1(h, s)
  {
  }

  /** All the rounds of a block. */
  method AllRounds1(h: State1, block: seq<Word>, ghost hash: Hash1) returns (abcd: Register, e: Register)
    requires Hashes1(hash) && |block| == 16 && block <= hash.words && hash.states[0] == h
    ensures At1(abcd, e, hash.states[80], 80)
  {
    abcd, e := Register(h.a, h.b, h.c, h.d), Register(h.e, 0, 0, 0);
    var schedule := LoadWords1(block, hash.words);
    for t := 0 to 20
      invariant |schedule| == if t < 4 then 4 else t
      invariant Schedule1(schedule, hash.words) && At1(abcd, e, hash.states[4 * t], 4 * t)
    {
      if t >= 4 {
        schedule := MoreWords1(schedule, hash.words);
      }
      var next := FourRounds1(abcd, e, schedule[t], t, hash);
      abcd, e := next, abcd;
    }
  }

  /** The sequence for SHA-1 hashes every block, from every chaining state, as section 6.1.2 says. */
  method Sha1Block(h: State1, block: seq<Word>) returns (out: State1)
    requires |block| == 16
    ensures out == Compress1(h, block)
  {
    WordsOfHash1(h, block);
    StatesOfHash1(h, block);
    ghost var hash := HashOf1(h, block);
    var abcd, e := AllRounds1(h, block, hash);
    FinishFeeds1(h, abcd, e, hash.states[80]);
    out := Finish1(h, abcd, e);
  }

  // ---------- FIPS 180-4, sections 4.1.2, 4.2.2 and 6.2.2: SHA-256 ----------

  function Ch(x: Word, y: Word, z: Word): Word { (x & y) ^ (!x & z) }

  function Maj(x: Word, y: Word, z: Word): Word { (x & y) ^ (x & z) ^ (y & z) }

  function BigSigma0(x: Word): Word { Ror(x, 2) ^ Ror(x, 13) ^ Ror(x, 22) }

  function BigSigma1(x: Word): Word { Ror(x, 6) ^ Ror(x, 11) ^ Ror(x, 25) }

  function Sigma0(x: Word): Word { Ror(x, 7) ^ Ror(x, 18) ^ (x >> 3) }

  function Sigma1(x: Word): Word { Ror(x, 17) ^ Ror(x, 19) ^ (x >> 10) }

  const K256: seq<Word> :=
    [0x428a2f98, 0x71374491, 0xb5c0fbcf, 0xe9b5dba5, 0x3956c25b, 0x59f111f1, 0x923f82a4, 0xab1c5ed5] +
    [0xd807aa98, 0x12835b01, 0x243185be, 0x550c7dc3, 0x72be5d74, 0x80deb1fe, 0x9bdc06a7, 0xc19bf174] +
    [0xe49b69c1, 0xefbe4786, 0x0fc19dc6, 0x240ca1cc, 0x2de92c6f, 0x4a7484aa, 0x5cb0a9dc, 0x76f988da] +
    [0x983e5152, 0xa831c66d, 0xb00327c8, 0xbf597fc7, 0xc6e00bf3, 0xd5a79147, 0x06ca6351, 0x14292967] +
    [0x27b70a85, 0x2e1b2138, 0x4d2c6dfc, 0x53380d13, 0x650a7354, 0x766a0abb, 0x81c2c92e, 0x92722c85] +
    [0xa2bfe8a1, 0xa81a664b, 0xc24b8b70, 0xc76c51a3, 0xd192e819, 0xd6990624, 0xf40e3585, 0x106aa070] +
    [0x19a4c116, 0x1e376c08, 0x2748774c, 0x34b0bcb5, 0x391c0cb3, 0x4ed8aa4a, 0x5b9cca4f, 0x682e6ff3] +
    [0x748f82ee, 0x78a5636f, 0x84c87814, 0x8cc70208, 0x90befffa, 0xa4506ceb, 0xbef9a3f7, 0xc67178f2]

  datatype State2 = State2(a: Word, b: Word, c: Word, d: Word, e: Word, f: Word, g: Word, h: Word)

  /** A round, whose T1 is h + BigSigma1(e) + Ch(e, f, g) + K + W, and whose T2 is BigSigma0(a) + Maj(a, b, c). */
  function Round2(s: State2, k: Word, w: Word): State2 {
    State2(NewA(s.h, BigSigma1(s.e), Ch(s.e, s.f, s.g), k, w, BigSigma0(s.a), Maj(s.a, s.b, s.c)), s.a, s.b, s.c,
           NewE(s.d, s.h, BigSigma1(s.e), Ch(s.e, s.f, s.g), k, w), s.e, s.f, s.g)
  }

  function NewA(h: Word, sigma1: Word, ch: Word, k: Word, w: Word, sigma0: Word, maj: Word): Word {
    (h + sigma1 + ch + k + w) + (sigma0 + maj)
  }

  function NewE(d: Word, h: Word, sigma1: Word, ch: Word, k: Word, w: Word): Word {
    d + (h + sigma1 + ch + k + w)
  }

  function NewWord2(x: Word, y: Word, z: Word, u: Word): Word { x + y + z + u }

  function W2(block: seq<Word>, t: nat): Word
    requires |block| == 16
  {
    if t < 16 then block[t]
    else NewWord2(Sigma1(W2(block, t - 2)), W2(block, t - 7), Sigma0(W2(block, t - 15)), W2(block, t - 16))
  }

  function After2(h: State2, block: seq<Word>, n: nat): State2
    requires |block| == 16 && n <= 64
  {
    if n == 0 then h else Round2(After2(h, block, n - 1), K256[n - 1], W2(block, n - 1))
  }

  function Feed2(h: State2, s: State2): State2 {
    State2(Add(h.a, s.a), Add(h.b, s.b), Add(h.c, s.c), Add(h.d, s.d), Add(h.e, s.e), Add(h.f, s.f), Add(h.g, s.g), Add(h.h, s.h))
  }

  /** The chaining state after a block, of 64 rounds: four for each word of it. */
  function Compress2(h: State2, block: seq<Word>): State2
    requires |block| == 16
  {
    Feed2(h, After2(h, block, 4 * |block|))
  }

  /** All that the section works out of a block, with each word and its constant added up too. */
  datatype Hash2 = Hash2(words: seq<Word>, sums: seq<Word>, states: seq<State2>)

  ghost predicate WordIs2(words: seq<Word>, n: nat)
    requires 16 <= n < |words|
  {
    words[n] == NewWord2(Sigma1(words[n - 2]), words[n - 7], Sigma0(words[n - 15]), words[n - 16])
  }

  ghost predicate SumIs2(hash: Hash2, n: nat)
    requires n < |hash.words| && n < |hash.sums| && n < 64
  {
    hash.sums[n] == Add(hash.words[n], K256[n])
  }

  ghost predicate RoundIs2(hash: Hash2, n: nat)
    requires n < |hash.words| && n + 1 < |hash.states| && n < 64
  {
    hash.states[n + 1] == Round2(hash.states[n], K256[n], hash.words[n])
  }

  ghost predicate Hashes2(hash: Hash2) {
    && |hash.words| == |hash.sums| == 64 && |hash.states| == 65
    && (forall n | 16 <= n < 64 :: WordIs2(hash.words, n))
    && (forall n | 0 <= n < 64 :: SumIs2(hash, n))
    && (forall n | 0 <= n < 64 :: RoundIs2(hash, n))
  }

  ghost function HashOf2(h: State2, block: seq<Word>): (hash: Hash2)
    requires |block| == 16
    ensures |hash.words| == |hash.sums| == 64 && |hash.states| == 65
  {
    Hash2(seq(64, n requires 0 <= n < 64 => W2(block, n)), seq(64, n requires 0 <= n < 64 => Add(W2(block, n), K256[n])),
          seq(65, n requires 0 <= n < 65 => After2(h, block, n)))
  }

  lemma WordsOfHash2(h: State2, block: seq<Word>)
    requires |block| == 16
    ensures block <= HashOf2(h, block).words && forall n | 16 <= n < 64 :: WordIs2(HashOf2(h, block).words, n)
    ensures forall n | 0 <= n < 64 :: SumIs2(HashOf2(h, block), n)
  {
    forall n | 16 <= n < 64 ensures WordIs2(HashOf2(h, block).words, n) {
      assert HashOf2(h, block).words[n] == W2(block, n);
    }
    forall n | 0 <= n < 64 ensures SumIs2(HashOf2(h, block), n) {}
  }

  lemma StatesOfHash2(h: State2, block: seq<Word>)
    requires |block| == 16
    ensures HashOf2(h, block).states[0] == h && forall n | 0 <= n < 64 :: RoundIs2(HashOf2(h, block), n)
    ensures Compress2(h, block) == Feed2(h, HashOf2(h, block).states[64])
  {
    forall n | 0 <= n < 64 ensures RoundIs2(HashOf2(h, block), n) {
      assert HashOf2(h, block).states[n + 1] == After2(h, block, n + 1);
    }
  }

  // ---------- The instructions of SHA-256 ----------

  function Sum4(h: Word, sigma1: Word, ch: Word, kw: Word): Word { h + sigma1 + ch + kw }

  function Sum3(t: Word, sigma0: Word, maj: Word): Word { t + sigma0 + maj }

  /** What the registers of the instruction have: A, B, E and F in one, and C, D, G and H in the other. */
  function Joined(abef: Register, cdgh: Register): State2 {
    State2(abef.l3, abef.l2, cdgh.l3, cdgh.l2, abef.l1, abef.l0, cdgh.l1, cdgh.l0)
  }

  /** A round, with its constant and its word added up. */
  function RoundOfSum(s: State2, kw: Word): State2 {
    var t := Sum4(s.h, BigSigma1(s.e), Ch(s.e, s.f, s.g), kw);
    State2(Sum3(t, BigSigma0(s.a), Maj(s.a, s.b, s.c)), s.a, s.b, s.c, Add(t, s.d), s.e, s.f, s.g)
  }

  /** Two rounds. */
  method Sha256Rnds2(x: Register, y: Register, kw0: Word, kw1: Word) returns (r: Register)
    ensures var s := RoundOfSum(RoundOfSum(Joined(y, x), kw0), kw1);
            r == Register(s.a, s.b, s.e, s.f)
  {
    var a, b, c, d := y.l3, y.l2, x.l3, x.l2;
    var e, f, g, h := y.l1, y.l0, x.l1, x.l0;
    for i := 0 to 2
      invariant State2(a, b, c, d, e, f, g, h) ==
                if i == 0 then Joined(y, x)
                else if i == 1 then RoundOfSum(Joined(y, x), kw0) else RoundOfSum(RoundOfSum(Joined(y, x), kw0), kw1)
    {
      var t := Sum4(h, BigSigma1(e), Ch(e, f, g), if i == 0 then kw0 else kw1);
      a, b, c, d, e, f, g, h := Sum3(t, BigSigma0(a), Maj(a, b, c)), a, b, c, Add(t, d), e, f, g;
    }
    r := Register(a, b, e, f);
  }

  lemma NewAIs(h: Word, sigma1: Word, ch: Word, k: Word, w: Word, sigma0: Word, maj: Word)
    ensures NewA(h, sigma1, ch, k, w, sigma0, maj) == (h + sigma1 + ch + k + w) + (sigma0 + maj)
  {
  }

  lemma NewEIs(d: Word, h: Word, sigma1: Word, ch: Word, k: Word, w: Word)
    ensures NewE(d, h, sigma1, ch, k, w) == d + (h + sigma1 + ch + k + w)
  {
  }

  lemma Sum3Is(t: Word, sigma0: Word, maj: Word)
    ensures Sum3(t, sigma0, maj) == t + sigma0 + maj
  {
  }

  lemma Sum4Is(h: Word, sigma1: Word, ch: Word, kw: Word)
    ensures Sum4(h, sigma1, ch, kw) == h + sigma1 + ch + kw
  {
  }

  lemma TurnedA(h: Word, sigma1: Word, ch: Word, k: Word, w: Word, sigma0: Word, maj: Word)
    ensures (h + sigma1 + ch + (w + k)) + sigma0 + maj == (h + sigma1 + ch + k + w) + (sigma0 + maj)
  {
  }

  lemma TurnedE(d: Word, h: Word, sigma1: Word, ch: Word, k: Word, w: Word)
    ensures (h + sigma1 + ch + (w + k)) + d == d + (h + sigma1 + ch + k + w)
  {
  }

  lemma SumsAsA(h: Word, sigma1: Word, ch: Word, k: Word, w: Word, sigma0: Word, maj: Word)
    ensures Sum3(h + sigma1 + ch + (w + k), sigma0, maj) == NewA(h, sigma1, ch, k, w, sigma0, maj)
  {
    Sum3Is(h + sigma1 + ch + (w + k), sigma0, maj);
    NewAIs(h, sigma1, ch, k, w, sigma0, maj);
    TurnedA(h, sigma1, ch, k, w, sigma0, maj);
  }

  lemma PartA(h: Word, sigma1: Word, ch: Word, k: Word, w: Word, sigma0: Word, maj: Word)
    ensures Sum3(Sum4(h, sigma1, ch, Add(w, k)), sigma0, maj) == NewA(h, sigma1, ch, k, w, sigma0, maj)
  {
    AddIs(w, k);
    Sum4Is(h, sigma1, ch, w + k);
    SumsAsA(h, sigma1, ch, k, w, sigma0, maj);
  }

  lemma SumsAsE(d: Word, h: Word, sigma1: Word, ch: Word, k: Word, w: Word)
    ensures Add(h + sigma1 + ch + (w + k), d) == NewE(d, h, sigma1, ch, k, w)
  {
    AddIs(h + sigma1 + ch + (w + k), d);
    NewEIs(d, h, sigma1, ch, k, w);
    TurnedE(d, h, sigma1, ch, k, w);
  }

  lemma PartE(d: Word, h: Word, sigma1: Word, ch: Word, k: Word, w: Word)
    ensures Add(Sum4(h, sigma1, ch, Add(w, k)), d) == NewE(d, h, sigma1, ch, k, w)
  {
    AddIs(w, k);
    Sum4Is(h, sigma1, ch, w + k);
    SumsAsE(d, h, sigma1, ch, k, w);
  }

  /** A round with its constant and its word added up is the round of the two. */
  lemma FoldK(s: State2, k: Word, w: Word)
    ensures RoundOfSum(s, Add(w, k)) == Round2(s, k, w)
  {
    PartA(s.h, BigSigma1(s.e), Ch(s.e, s.f, s.g), k, w, BigSigma0(s.a), Maj(s.a, s.b, s.c));
    PartE(s.d, s.h, BigSigma1(s.e), Ch(s.e, s.f, s.g), k, w);
  }

  function Sha256Msg1(x: Register, y: Register): Register {
    Register(Add(x.l3, Sigma0(y.l0)), Add(x.l2, Sigma0(x.l3)), Add(x.l1, Sigma0(x.l2)), Add(x.l0, Sigma0(x.l1)))
  }

  function Sha256Msg2(x: Register, y: Register): Register {
    var w16 := Add(x.l0, Sigma1(y.l2));
    var w17 := Add(x.l1, Sigma1(y.l3));
    Register(Add(x.l3, Sigma1(w17)), Add(x.l2, Sigma1(w16)), w17, w16)
  }

  function AddAll(x: Register, y: Register): Register {
    Register(Add(x.l3, y.l3), Add(x.l2, y.l2), Add(x.l1, y.l1), Add(x.l0, y.l0))
  }

  /** The words from the second of one register to the first of the next. */
  function Shifted(x: Register, y: Register): Register { Register(y.l0, x.l3, x.l2, x.l1) }

  lemma AddOrder(p: Word, q: Word, r: Word, s: Word)
    ensures Add(Add(Add(p, q), r), s) == NewWord2(s, r, q, p)
  {
    AddIs(p, q);
    AddIs(p + q, r);
    AddIs(p + q + r, s);
    NewWord2Is(s, r, q, p);
    TurnedWord(p, q, r, s);
  }

  lemma NewWord2Is(x: Word, y: Word, z: Word, u: Word)
    ensures NewWord2(x, y, z, u) == x + y + z + u
  {
  }

  lemma TurnedWord(p: Word, q: Word, r: Word, s: Word)
    ensures p + q + r + s == s + r + q + p
  {
  }

  /** Four words of the schedule, the first the least significant. */
  function Words2(words: seq<Word>, t: nat): Register
    requires 4 * t + 3 < |words|
  {
    Register(words[4 * t + 3], words[4 * t + 2], words[4 * t + 1], words[4 * t])
  }

  /** What the instructions of the schedule make of sixteen words. */
  function Next2(x: Register, y: Register, z: Register, u: Register): Register {
    Sha256Msg2(AddAll(Sha256Msg1(x, y), Shifted(z, u)), u)
  }

  /** A word by the four before it that it is of, in the order of the instructions. */
  function Sum2(p: Word, q: Word, r: Word, s: Word): Word { Add(Add(Add(p, Sigma0(q)), r), Sigma1(s)) }

  lemma FourMore2(x: Register, y: Register, z: Register, u: Register, n: Register)
    requires n.l0 == Sum2(x.l0, x.l1, z.l1, u.l2) && n.l1 == Sum2(x.l1, x.l2, z.l2, u.l3)
    requires n.l2 == Sum2(x.l2, x.l3, z.l3, n.l0) && n.l3 == Sum2(x.l3, y.l0, u.l0, n.l1)
    ensures Next2(x, y, z, u) == n
  {
  }

  lemma NextWord2(words: seq<Word>, n: nat)
    requires 16 <= n < |words| && WordIs2(words, n)
    ensures words[n] == Sum2(words[n - 16], words[n - 15], words[n - 7], words[n - 2])
  {
    AddOrder(words[n - 16], Sigma0(words[n - 15]), words[n - 7], Sigma1(words[n - 2]));
  }

  /** The instructions of the schedule give its next four words. */
  lemma NextWords2(words: seq<Word>, t: nat)
    requires t >= 4 && 4 * t + 3 < |words|
    requires forall n | 4 * t <= n < 4 * t + 4 :: WordIs2(words, n)
    ensures Next2(Words2(words, t - 4), Words2(words, t - 3), Words2(words, t - 2), Words2(words, t - 1)) == Words2(words, t)
  {
    NextWord2(words, 4 * t);
    NextWord2(words, 4 * t + 1);
    NextWord2(words, 4 * t + 2);
    NextWord2(words, 4 * t + 3);
    FourMore2(Words2(words, t - 4), Words2(words, t - 3), Words2(words, t - 2), Words2(words, t - 1), Words2(words, t));
  }

  /** The constants of four rounds, the first the least significant. */
  function Constants(t: nat): Register
    requires t < 16
  {
    Register(K256[4 * t + 3], K256[4 * t + 2], K256[4 * t + 1], K256[4 * t])
  }

  /** A round of a block, with its constant and its word added up. */
  lemma RoundOfHash2(hash: Hash2, n: nat)
    requires Hashes2(hash) && n < 64
    ensures hash.states[n + 1] == RoundOfSum(hash.states[n], hash.sums[n])
  {
    assert RoundIs2(hash, n) && SumIs2(hash, n);
    FoldK(hash.states[n], K256[n], hash.words[n]);
  }

  /** After two rounds, C, D, G and H are what A, B, E and F were. */
  lemma TwoShift(s: State2, kw0: Word, kw1: Word)
    ensures var next := RoundOfSum(RoundOfSum(s, kw0), kw1);
            (next.c, next.d, next.g, next.h) == (s.a, s.b, s.e, s.f)
  {
  }

  ghost predicate HasAbef(r: Register, s: State2) { r == Register(s.a, s.b, s.e, s.f) }

  ghost predicate HasCdgh(r: Register, s: State2) { r == Register(s.c, s.d, s.g, s.h) }

  /** Two rounds of a block by one instruction: it gives the one register, and the other is what that was. */
  method TwoRounds(cdgh: Register, abef: Register, kw0: Word, kw1: Word, ghost hash: Hash2, ghost n: nat)
    returns (r: Register)
    requires Hashes2(hash) && n + 2 <= 64 && kw0 == hash.sums[n] && kw1 == hash.sums[n + 1]
    requires HasAbef(abef, hash.states[n]) && HasCdgh(cdgh, hash.states[n])
    ensures HasAbef(r, hash.states[n + 2]) && HasCdgh(abef, hash.states[n + 2])
  {
    RoundOfHash2(hash, n);
    RoundOfHash2(hash, n + 1);
    TwoShift(hash.states[n], kw0, kw1);
    r := Sha256Rnds2(cdgh, abef, kw0, kw1);
  }

  ghost predicate Schedule2(w: seq<Register>, words: seq<Word>) {
    4 * |w| <= |words| && forall j | 0 <= j < |w| :: w[j] == Words2(words, j)
  }

  method LoadWords2(block: seq<Word>, ghost words: seq<Word>) returns (w: seq<Register>)
    requires |block| == 16 && block <= words
    ensures |w| == 4 && Schedule2(w, words)
  {
    w := [];
    for i := 0 to 4
      invariant |w| == i && Schedule2(w, words)
    {
      w := w + [Register(block[4 * i + 3], block[4 * i + 2], block[4 * i + 1], block[4 * i])];
    }
  }

  method MoreWords2(w: seq<Register>, ghost words: seq<Word>) returns (more: seq<Register>)
    requires 4 <= |w| && 4 * |w| + 3 < |words| && Schedule2(w, words)
    requires forall n | 4 * |w| <= n < 4 * |w| + 4 :: WordIs2(words, n)
    ensures |more| == |w| + 1 && Schedule2(more, words)
  {
    var t := |w|;
    NextWords2(words, t);
    more := w + [Next2(w[t - 4], w[t - 3], w[t - 2], w[t - 1])];
  }

  /** Whether registers have the working variables. */
  ghost predicate At2(abef: Register, cdgh: Register, s: State2) {
    HasAbef(abef, s) && HasCdgh(cdgh, s)
  }

  /** Four words with their constants added. */
  method AddConstants(w: Register, t: nat, ghost hash: Hash2) returns (kw: Register)
    requires Hashes2(hash) && t < 16 && w == Words2(hash.words, t)
    ensures kw == Words2(hash.sums, t)
  {
    assert SumIs2(hash, 4 * t) && SumIs2(hash, 4 * t + 1) && SumIs2(hash, 4 * t + 2) && SumIs2(hash, 4 * t + 3);
    kw := AddAll(w, Constants(t));
  }

  method FourRounds2(abef: Register, cdgh: Register, w: Register, t: nat, ghost hash: Hash2)
    returns (state0: Register, state1: Register)
    requires Hashes2(hash) && t < 16 && w == Words2(hash.words, t) && At2(abef, cdgh, hash.states[4 * t])
    ensures At2(state0, state1, hash.states[4 * t + 4])
  {
    var kw := AddConstants(w, t, hash);
    state1 := TwoRounds(cdgh, abef, kw.l0, kw.l1, hash, 4 * t);
    state0 := TwoRounds(abef, state1, kw.l2, kw.l3, hash, 4 * t + 2);
  }

  function Finish2(h: State2, abef: Register, cdgh: Register): State2 {
    State2(Add(h.a, abef.l3), Add(h.b, abef.l2), Add(h.c, cdgh.l3), Add(h.d, cdgh.l2),
           Add(h.e, abef.l1), Add(h.f, abef.l0), Add(h.g, cdgh.l1), Add(h.h, cdgh.l0))
  }

  lemma FinishFeeds2(h: State2, abef: Register, cdgh: Register, s: State2)
    requires At2(abef, cdgh, s)
    ensures Finish2(h, abef, cdgh) == Feed2(h, s)
  {
  }

  /** All the rounds of a block. */
  method AllRounds2(h: State2, block: seq<Word>, ghost hash: Hash2) returns (state0: Register, state1: Register)
    requires Hashes2(hash) && |block| == 16 && block <= hash.words && hash.states[0] == h
    ensures At2(state0, state1, hash.states[64])
  {
    state0, state1 := Register(h.a, h.b, h.e, h.f), Register(h.c, h.d, h.g, h.h);
    var w := LoadWords2(block, hash.words);
    for t := 0 to 16
      invariant |w| == if t < 4 then 4 else t
      invariant Schedule2(w, hash.words) && At2(state0, state1, hash.states[4 * t])
    {
      if t >= 4 {
        w := MoreWords2(w, hash.words);
      }
      state0, state1 := FourRounds2(state0, state1, w[t], t, hash);
    }
  }

  /** The sequence for SHA-256 hashes every block, from every chaining state, as section 6.2.2 says. */
  method Sha256Block(h: State2, block: seq<Word>) returns (out: State2)
    requires |block| == 16
    ensures out == Compress2(h, block)
  {
    WordsOfHash2(h, block);
    StatesOfHash2(h, block);
    ghost var hash := HashOf2(h, block);
    var state0, state1 := AllRounds2(h, block, hash);
    FinishFeeds2(h, state0, state1, hash.states[64]);
    out := Finish2(h, state0, state1);
  }
}
