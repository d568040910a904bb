/** Division of 64 bits by shifting and subtracting (testsuite/musl/builtins.c:11-25). A signed value is negated in two's
    complement, where the least one is its own negative. */
module Division {
  import opened Basics

  /** Where a remainder goes. */
  class Cell {
    var value: U64

    constructor (value: U64)
      ensures this.value == value
    {
      this.value := value;
    }
  }

  function ShiftLeft(x: U64): U64 { Wrapped(2 * x) }

  /** The bits of either. */
  function Or(x: nat, y: nat): nat {
    if x == 0 then y
    else if y == 0 then x
    else (if x % 2 == 1 || y % 2 == 1 then 1 else 0) + 2 * Or(x / 2, y / 2)
  }

  /** A bit that is below all of a value is added by setting it. */
  lemma {:induction false} OrAdds(q: nat, k: nat, m: nat)
    requires q == m * Power2(k + 1)
    ensures Or(q, Power2(k)) == q + Power2(k)
    decreases k
  {
    if q > 0 {
      if k == 0 {
        assert q == m * 2;
        assert Or(q / 2, 1 / 2) == q / 2;
      } else {
        assert q == 2 * (m * Power2(k));
        OrAdds(q / 2, k - 1, m);
      }
    }
  }

  /** With its top bit clear a value is shifted up whole, and so is the bit of the quotient that it is a multiple by. */
  lemma NothingLost(d0: nat, d: nat, b: nat)
    requires d0 > 0 && d == d0 * b && d < HALF
    ensures 2 * b < WORD && ShiftLeft(d) == 2 * d == d0 * ShiftLeft(b) && ShiftLeft(b) == 2 * b
  {
    AtLeast(b, d0);
    assert d0 * (2 * b) == 2 * (d0 * b) && b * d0 == d0 * b;
  }

  /** Shifted up while it is less: none of its bits, nor of that of the quotient, is lost. */
  method ShiftUp(n: U64, d0: U64) returns (d: U64, b: U64, ghost k: nat)
    requires d0 > 0
    ensures b == Power2(k) && d == d0 * b
    ensures n < 2 * d
  {
    d, b, k := d0, 1, 0;
    while d < n && d / HALF == 0
      invariant b == Power2(k) && d == d0 * b
      decreases WORD - d
    {
      NothingLost(d0, d, b);
      d, b, k := ShiftLeft(d), ShiftLeft(b), k + 1;
    }
  }

  /** What holds while it is shifted down: the bit that is next, what the quotient has above it, and what is left. */
  ghost predicate Dividing(n0: nat, d0: nat, n: nat, d: nat, b: nat, q: nat, k: nat, m: nat) {
    && q * d0 + n == n0
    && (b == 0 ==> n < d0)
    && (b > 0 ==> b == Power2(k) && d == d0 * b && q == m * Power2(k + 1) && n < 2 * d)
  }

  /** The quotient, 0 for a divisor of 0, and the remainder where it is asked for, but for a divisor of 0. */
  method UDivMod(n0: U64, d0: U64, r: Cell?) returns (q: U64)
    modifies if r == null then {} else {r}
    ensures d0 == 0 ==> q == 0 && (r != null ==> r.value == old(r.value))
    ensures d0 > 0 ==> q * d0 <= n0 < q * d0 + d0 && (r != null ==> r.value == n0 - q * d0)
  {
    q := 0;
    if d0 == 0 {
      return;
    }
    var n := n0;
    var d, b, k := ShiftUp(n0, d0);
    ghost var m := 0;
    while b != 0
      invariant k >= 0 && m >= 0 && Dividing(n0, d0, n, d, b, q, k, m)
      decreases b
    {
      SetsBit(n0, d0, n, d, b, q, k, m);
      ghost var before := q;
      if n >= d {
        n, q := n - d, Or(q, b);
      }
      GoesDown(n0, d0, n, d, b, before, q, k, m);
      k, m := if k > 0 then k - 1 else 0, if q == before then 2 * m else 2 * m + 1;
      d, b := d / 2, b / 2;
    }
    if r != null {
      r.value := n;
    }
  }

  /** The next bit of the quotient is set just if as much is left. */
  lemma SetsBit(n0: U64, d0: nat, n: nat, d: nat, b: nat, q: nat, k: nat, m: nat)
    requires Dividing(n0, d0, n, d, b, q, k, m) && b > 0 && d0 > 0
    ensures Or(q, b) == q + b
    ensures n >= d ==> (q + b) * d0 + (n - d) == n0 && q + b < WORD
  {
    OrAdds(q, k, m);
    Spread(q, b, d0);
    AtLeast(q + b, d0);
  }

  lemma Spread(q: nat, b: nat, d: nat)
    ensures (q + b) * d == q * d + d * b
  {
  }

  lemma GoesDown(n0: nat, d0: nat, n: nat, d: nat, b: nat, before: nat, q: nat, k: nat, m: nat)
    requires b == Power2(k) && d == d0 * b && before == m * Power2(k + 1) && (q == before || q == before + b)
    requires q * d0 + n == n0 && n < d && d0 > 0
    ensures Dividing(n0, d0, n, d / 2, b / 2, q, if k > 0 then k - 1 else 0, if q == before then 2 * m else 2 * m + 1)
  {
    if k > 0 {
      var h := Power2(k - 1);
      assert b == 2 * h && d == 2 * (d0 * h) by {
        assert d0 * (2 * h) == 2 * (d0 * h);
      }
      assert Power2(k + 1) == 2 * b;
      assert before == 2 * m * (2 * h) by {
        assert m * (2 * (2 * h)) == 2 * m * (2 * h);
      }
      assert (2 * m + 1) * (2 * h) == 2 * m * (2 * h) + 2 * h;
    } else {
      assert d == d0;
    }
  }

  method UDiv(n: U64, d: U64) returns (q: U64)
    ensures q == if d == 0 then 0 else n / d
  {
    q := UDivMod(n, d, null);
    if d != 0 {
      Quotient(n, d, q, n - q * d);
    }
  }

  method UMod(n: U64, d: U64) returns (remainder: U64)
    ensures remainder == if d == 0 then 0 else n % d
  {
    var r := new Cell(0);
    var q := UDivMod(n, d, r);
    if d != 0 {
      Quotient(n, d, q, n - q * d);
    }
    remainder := r.value;
  }

  // ---------- Signed ----------

  function Unsigned(i: I64): U64 { if i < 0 then i + WORD else i }

  function Negated(i: I64): I64 { if i == -HALF then i else -i }

  /** What a signed value is divided by its size as, though the least has none. */
  function Magnitude(i: I64): U64 { Unsigned(if i < 0 then Negated(i) else i) }

  lemma MagnitudeIsSize(i: I64)
    ensures Magnitude(i) == Abs(i)
  {
  }

  /** There is just one. */
  lemma CutIsUnique(n: int, d: int, q: int, p: int)
    requires d != 0 && IsCut(n, d, q) && IsCut(n, d, p)
    ensures p == q
  {
    var k := p - q;
    Differ(p, q, d);
    if k != 0 {
      NoLess(k, d);
    }
  }

  lemma Differ(p: int, q: int, d: int)
    ensures (p - q) * d == p * d - q * d
  {
  }

  lemma NoLess(k: int, d: int)
    requires k != 0
    ensures Abs(k * d) >= Abs(d)
  {
    AtLeast(Abs(d), Abs(k));
    Signs(k < 0, d, Abs(k));
    assert Minus((k < 0) != (d < 0), Abs(k)) == if d < 0 then -k else k;
    assert (-k) * d == -(k * d);
  }

  /** The quotient cut towards zero, which there is but for the least value by -1, that comes to itself. */
  method Div(n: I64, d: I64) returns (q: I64)
    ensures d == 0 ==> q == 0
    ensures d != 0 && !(n == -HALF && d == -1) ==> IsCut(n, d, q)
    ensures n == -HALF && d == -1 ==> q == n && !IsCut(n, d, q)
  {
    var u := UDiv(Magnitude(n), Magnitude(d));
    if d != 0 {
      SignedIsCut(n, d, u);
    }
    q := WithSign((n < 0) != (d < 0), u);
  }

  /** A size with a sign, which the least value has without one too. */
  function WithSign(negative: bool, u: U64): I64 { if negative then Negated(Signed(u)) else Signed(u) }

  lemma SignedIsCut(n: I64, d: I64, u: U64)
    requires d != 0 && Magnitude(d) != 0 && u == Magnitude(n) / Magnitude(d)
    ensures var q := WithSign((n < 0) != (d < 0), u);
            if n == -HALF && d == -1 then q == n && !IsCut(n, d, q) else IsCut(n, d, q)
  {
    MagnitudeIsSize(n);
    MagnitudeIsSize(d);
    QuotientFits(n, d, u);
    if n == -HALF && d == -1 {
      assert n - n * d == 2 * n;
    } else {
      CutOfSizes(n, d, u, Magnitude(n) % Magnitude(d));
      assert WithSign((n < 0) != (d < 0), u) == Minus((n < 0) != (d < 0), u);
    }
  }

  /** A quotient of sizes is too much for a signed value only for the least value by 1 or -1. */
  lemma QuotientFits(n: I64, d: I64, u: nat)
    requires d != 0 && u == Magnitude(n) / Magnitude(d)
    ensures u <= HALF && (u == HALF ==> n == -HALF && (d == 1 || d == -1))
    ensures n == -HALF && d == -1 ==> u == HALF
  {
    MagnitudeIsSize(n);
    MagnitudeIsSize(d);
    SmallQuotient(Magnitude(n), Magnitude(d), u);
  }

  lemma SmallQuotient(n: nat, d: nat, u: nat)
    requires d > 0 && u == n / d && n <= HALF
    ensures u <= n && (d >= 2 ==> 2 * u <= n) && (d == 1 ==> u == n)
  {
    if d >= 2 {
      assert u <= n / 2;
    }
  }

  /** What remains of a quotient cut towards zero. */
  method Mod(n: I64, d: I64) returns (r: I64)
    ensures d == 0 ==> r == 0
    ensures d != 0 ==> exists q: int :: IsCut(n, d, q) && r == n - q * d
  {
    var u := UMod(Magnitude(n), Magnitude(d));
    MagnitudeIsSize(n);
    MagnitudeIsSize(d);
    if d != 0 {
      var q: int := Magnitude(n) / Magnitude(d);
      CutOfSizes(n, d, q, u);
      assert IsCut(n, d, Minus((n < 0) != (d < 0), q));
    }
    r := WithSign(n < 0, u);
  }

  /** A quotient and what remains give back what was divided, but for the least value by -1, where they do not. */
  method Recompose(n: I64, d: I64) returns (q: I64, r: I64)
    requires d != 0
    ensures q * d + r == n <==> !(n == -HALF && d == -1)
  {
    q := Div(n, d);
    r := Mod(n, d);
    var p: int :| IsCut(n, d, p) && r == n - p * d;
    if !(n == -HALF && d == -1) {
      CutIsUnique(n, d, q, p);
    }
  }
}
