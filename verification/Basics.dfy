/** What several of the models have in common: values that may not be there, and words of 64 bits. */
module Basics {
  datatype Option<+T> = None | Some(value: T)

  const WORD: int := 0x1_0000_0000_0000_0000
  const HALF: int := 0x8000_0000_0000_0000

  type U64 = u: nat | u < WORD
  type I64 = i: int | -HALF <= i < HALF

  function Power2(k: nat): (p: nat)
    ensures p > 0
  {
    if k == 0 then 1 else 2 * Power2(k - 1)
  }

  /** A word as it is signed. */
  function Signed(u: U64): I64 { if u < HALF then u else u - WORD }

  /** A number in 64 bits. */
  function Wrapped(i: int): U64 { i % WORD }

  function Abs(i: int): nat { if i < 0 then -i else i }

  function Minus(negative: bool, i: int): int { if negative then -i else i }

  /** Whether a quotient is cut towards zero: what remains has less than the size of the divisor, and the sign of what
      was divided. */
  predicate IsCut(n: int, d: int, q: int) {
    var r := n - q * d;
    && Abs(r) < Abs(d)
    && (n >= 0 ==> r >= 0) && (n <= 0 ==> r <= 0)
  }

  lemma AtLeast(x: nat, d: nat)
    requires d > 0
    ensures x * d >= x
  {
  }

  lemma Signs(negative: bool, d: int, q: int)
    ensures Minus(negative != (d < 0), q) * d == Minus(negative, q * Abs(d))
  {
    assert (-q) * d == -(q * d) && q * -d == -(q * d);
  }

  /** A quotient of sizes, with the sign that it is to have, is cut towards zero. */
  lemma CutOfSizes(n: int, d: int, q: int, r: int)
    requires d != 0 && Abs(n) == q * Abs(d) + r && 0 <= r < Abs(d)
    ensures n - Minus((n < 0) != (d < 0), q) * d == Minus(n < 0, r)
    ensures IsCut(n, d, Minus((n < 0) != (d < 0), q))
  {
    Signs(n < 0, d, q);
    Remains(n, d, Minus((n < 0) != (d < 0), q) * d, r);
  }

  lemma Remains(n: int, d: int, product: int, r: int)
    requires product == Minus(n < 0, Abs(n) - r) && 0 <= r < Abs(d)
    ensures n - product == Minus(n < 0, r) && Abs(n - product) == r
  {
  }

  lemma Quotient(n: nat, d: nat, q: nat, r: nat)
    requires d > 0 && n == q * d + r && r < d
    ensures n / d == q && n % d == r
  {
    var k := n / d - q;
    assert k * d == r - n % d;
    assert k >= 1 ==> k * d >= d;
    assert k <= -1 ==> k * d <= (-1) * d;
  }

  // ---------- Slots ----------

  /** What a slot has, 0 for one that isn't there. */
  function Get(slots: seq<U64>, s: nat): U64 { if s < |slots| then slots[s] else 0 }

  function With(slots: seq<U64>, s: nat, value: U64): (w: seq<U64>)
    ensures |w| == |slots|
  {
    if s < |slots| then slots[s := value] else slots
  }
}
