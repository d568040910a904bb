/** The operations of a compiled program (Bap/Jit.lean:97-130) and what native code makes of those that compute
    (native/bap_jit.cpp:697-895), against what the repository's Lean model says of them
    (Bap/Proofs/Primus.lean:6570-6608): the code works out both sides of each choice, so that none may be undefined. */
module Operations {
  import opened Basics

  const ONES: U64 := 0xFFFF_FFFF_FFFF_FFFF

  datatype Bin =
    | BinAdd | BinSub | BinMul | BinAnd | BinOr | BinXor | BinShl | BinShr
    | BinEq | BinNe | BinLt | BinLe | BinGt | BinGe
    | BinUDiv | BinURem | BinSDiv | BinSRem | BinSLt | BinSLe | BinSGt | BinSGe

  /** The operations, in the order of their tags. */
  datatype Op =
    | Set(dst: nat, value: U64)
    | Move(dst: nat, src: nat)
    | AddTo(dst: nat, src: nat, immediate: U64)
    | Jump(target: U64)
    | JumpSlot(src: nat)
    | Binary(bin: Bin, dst: nat, left: nat, right: nat)
    | AndWith(dst: nat, src: nat, immediate: U64)
    | SignExtend(width: nat, dst: nat, src: nat)
    | Select(dst: nat, condition: nat, yes: nat, no: nat)
    | Neg(dst: nat, src: nat)
    | Not(dst: nat, src: nat)
    | AShr(width: nat, dst: nat, left: nat, right: nat)
    | Label(id: nat)
    | Goto(id: nat)
    | Branch(condition: nat, yes: nat, no: nat)
    | MemLoad(dst: nat, address: nat, size: nat, big: bool)
    | MemStore(address: nat, stored: nat, size: nat, big: bool)
    | Code(effect: nat, pc: U64)

  function Flag(b: bool): U64 { if b then 1 else 0 }

  datatype Bitwise = And | Or | Xor

  function Bits(op: Bitwise, x: nat, y: nat): nat
    decreases x + y
  {
    if x == 0 && y == 0 then 0
    else
      var bit := match op
        case And => x % 2 == 1 && y % 2 == 1
        case Or => x % 2 == 1 || y % 2 == 1
        case Xor => x % 2 != y % 2;
      (if bit then 1 else 0) + 2 * Bits(op, x / 2, y / 2)
  }

  lemma {:induction false} BitsFit(op: Bitwise, x: nat, y: nat, k: nat)
    requires x < Power2(k) && y < Power2(k)
    ensures Bits(op, x, y) < Power2(k)
    decreases k
  {
    if k > 0 && !(x == 0 && y == 0) {
      BitsFit(op, x / 2, y / 2, k - 1);
    }
  }

  lemma Power16()
    ensures Power2(16) == 0x1_0000
  {
    PowerSum(1, 1);
    PowerSum(2, 2);
    PowerSum(4, 4);
    PowerSum(8, 8);
  }

  lemma Power64()
    ensures Power2(64) == WORD && Power2(63) == HALF
  {
    Power16();
    PowerSum(16, 16);
    PowerSum(32, 32);
    assert Power2(64) == 2 * Power2(63);
  }

  lemma {:induction false} PowerSum(j: nat, k: nat)
    ensures Power2(j + k) == Power2(j) * Power2(k)
    decreases j
  {
    if j > 0 {
      PowerSum(j - 1, k);
      assert Power2(j + k) == 2 * (Power2(j - 1) * Power2(k));
    }
  }

  function BitsOf(op: Bitwise, x: U64, y: U64): U64 {
    Power64();
    BitsFit(op, x, y, 64);
    Bits(op, x, y)
  }

  // ---------- What the instructions of the host are defined for ----------

  function ShiftLeft(x: U64, amount: nat): U64
    requires amount < 64
  {
    Wrapped(x * Power2(amount))
  }

  function ShiftRight(x: U64, amount: nat): U64
    requires amount < 64
  {
    Less(x, Power2(amount));
    x / Power2(amount)
  }

  lemma Less(x: nat, d: nat)
    requires d > 0
    ensures 0 <= x / d <= x
  {
    AtLeast(x / d, d);
    assert x == x / d * d + x % d;
  }

  lemma AtLeastTwice(x: nat, d: nat)
    requires d >= 2
    ensures x * d >= 2 * x
  {
  }

  /** A shift right that keeps the sign. */
  function SignedShift(x: U64, amount: nat): U64
    requires amount < 64
  {
    Wrapped(Floor(Signed(x), Power2(amount)))
  }

  /** The quotient rounded down. */
  function Floor(x: int, d: nat): int
    requires d > 0
  {
    x / d
  }

  function Divide(x: U64, d: U64): U64
    requires d != 0
  {
    Less(x, d);
    x / d
  }

  function Remainder(x: U64, d: U64): U64
    requires d != 0
  {
    x % d
  }

  /** The quotient towards zero, defined but for the least value by -1. */
  function SignedDivide(x: U64, d: U64): U64
    requires d != 0 && !(x == HALF && d == ONES)
  {
    Wrapped(Minus((Signed(x) < 0) != (Signed(d) < 0), Abs(Signed(x)) / Abs(Signed(d))))
  }

  function SignedRemainder(x: U64, d: U64): U64
    requires d != 0 && !(x == HALF && d == ONES)
  {
    Wrapped(Minus(Signed(x) < 0, Abs(Signed(x)) % Abs(Signed(d))))
  }

  // ---------- What the code does ----------

  function Compared(bin: Bin, l: U64, r: U64): bool {
    match bin
    case BinEq => l == r
    case BinNe => l != r
    case BinLt => l < r
    case BinLe => l <= r
    case BinGt => l > r
    case BinGe => l >= r
    case BinSLt => Signed(l) < Signed(r)
    case BinSLe => Signed(l) <= Signed(r)
    case BinSGt => Signed(l) > Signed(r)
    case BinSGe => Signed(l) >= Signed(r)
    case _ => false
  }

  /** An operation of two slots: both sides of a choice are worked out, and one is taken. */
  function CodeBin(bin: Bin, l: U64, r: U64): U64 {
    match bin
    case BinAdd => Wrapped(l + r)
    case BinSub => Wrapped(l - r)
    case BinMul => Wrapped(l * r)
    case BinAnd => BitsOf(And, l, r)
    case BinOr => BitsOf(Or, l, r)
    case BinXor => BitsOf(Xor, l, r)
    case BinShl =>
      var large := r >= 64;
      var shifted := ShiftLeft(l, if large then 0 else r);
      if large then 0 else shifted
    case BinShr =>
      var large := r >= 64;
      var shifted := ShiftRight(l, if large then 0 else r);
      if large then 0 else shifted
    case BinUDiv =>
      var isZero := r == 0;
      var quotient := Divide(l, if isZero then 1 else r);
      if isZero then ONES else quotient
    case BinURem =>
      var isZero := r == 0;
      var remainder := Remainder(l, if isZero then 1 else r);
      if isZero then l else remainder
    case BinSDiv =>
      var isZero, overflow := r == 0, l == HALF && r == ONES;
      var quotient := SignedDivide(l, if overflow then 1 else if isZero then 1 else r);
      if isZero then (if Signed(l) < 0 then 1 else ONES) else if overflow then l else quotient
    case BinSRem =>
      var isZero, overflow := r == 0, l == HALF && r == ONES;
      var remainder := SignedRemainder(l, if overflow then 1 else if isZero then 1 else r);
      if isZero then l else if overflow then 0 else remainder
    case _ => Flag(Compared(bin, l, r))
  }

  /** Sign extension, as a shift up and a signed shift down. */
  function CodeExtend(width: nat, x: U64): U64
    requires 1 <= width <= 64
  {
    if width < 64 then SignedShift(ShiftLeft(x, 64 - width), 64 - width) else x
  }

  /** An arithmetic shift by no more than a width has. */
  function CodeAShr(width: nat, x: U64, r: U64): U64
    requires 1 <= width <= 64
  {
    SignedShift(x, if r >= width then width - 1 else r)
  }

  // ---------- What is promised ----------

  /** What division is to be, with a divisor of 0 and what overflows (SMT-LIB's bitvectors, and the model in Lean). */
  predicate IsSignedQuotient(l: U64, r: U64, q: U64) {
    if r == 0 then q == if l >= HALF then 1 else ONES
    else if l == HALF && r == ONES then q == l
    else IsCut(Signed(l), Signed(r), Signed(q))
  }

  lemma QuotientOf(x: nat, d: nat)
    requires d > 0
    ensures x == x / d * d + x % d && 0 <= x / d <= x && 0 <= x % d < d && (d >= 2 ==> 2 * (x / d) <= x)
            && (d == 1 ==> x / d == x)
  {
    Less(x, d);
    if d >= 2 {
      AtLeastTwice(x / d, d);
    }
  }

  lemma SignedOfWrapped(i: int)
    ensures -HALF <= i < HALF ==> Signed(Wrapped(i)) == i
  {
  }

  /** But for the least value by -1, quotient and remainder are signed words. */
  lemma SignedFits(x: int, d: int)
    requires -HALF <= x < HALF && -HALF <= d < HALF && d != 0 && !(x == -HALF && d == -1)
    ensures -HALF <= Minus((x < 0) != (d < 0), Abs(x) / Abs(d)) < HALF
    ensures -HALF <= Minus(x < 0, Abs(x) % Abs(d)) < HALF
    ensures Minus(x < 0, Abs(x) % Abs(d)) == x - Minus((x < 0) != (d < 0), Abs(x) / Abs(d)) * d
    ensures IsCut(x, d, Minus((x < 0) != (d < 0), Abs(x) / Abs(d)))
  {
    QuotientOf(Abs(x), Abs(d));
    CutOfSizes(x, d, Abs(x) / Abs(d), Abs(x) % Abs(d));
    WithinWord(x, d, Abs(x) / Abs(d));
  }

  lemma WithinWord(x: int, d: int, q: nat)
    requires -HALF <= x < HALF && -HALF <= d < HALF && d != 0 && !(x == -HALF && d == -1)
    requires q <= Abs(x) && (Abs(d) >= 2 ==> 2 * q <= Abs(x))
    ensures -HALF <= Minus((x < 0) != (d < 0), q) < HALF
  {
  }

  /** The code of a signed division gives the quotient towards zero, with the values that are promised for a divisor of 0
      and for what overflows. */
  lemma SignedQuotientIsRight(l: U64, r: U64)
    ensures IsSignedQuotient(l, r, CodeBin(BinSDiv, l, r))
  {
    var x, d := Signed(l), Signed(r);
    if r != 0 && !(l == HALF && r == ONES) {
      SignedFits(x, d);
      SignedOfWrapped(Minus((x < 0) != (d < 0), Abs(x) / Abs(d)));
    }
  }

  /** The code of a signed remainder gives what the quotient leaves. */
  lemma SignedRemainderIsRight(l: U64, r: U64)
    ensures r == 0 ==> CodeBin(BinSRem, l, r) == l
    ensures r != 0 ==>
              Signed(CodeBin(BinSRem, l, r)) ==
              if l == HALF && r == ONES then 0 else Signed(l) - Signed(CodeBin(BinSDiv, l, r)) * Signed(r)
  {
    var x, d := Signed(l), Signed(r);
    if r != 0 && !(l == HALF && r == ONES) {
      SignedFits(x, d);
      SignedOfWrapped(Minus((x < 0) != (d < 0), Abs(x) / Abs(d)));
      SignedOfWrapped(Minus(x < 0, Abs(x) % Abs(d)));
    }
  }

  // ---------- Words by what they stand for ----------

  /** Whether a word is a number in 64 bits. */
  predicate Same(q: U64, i: int) { (i - q) % WORD == 0 }

  lemma WrappedIsSame(i: int)
    ensures Same(Wrapped(i), i)
  {
  }

  /** A bit of a number. */
  predicate Bit(x: nat, k: nat) { x / Power2(k) % 2 == 1 }

  predicate Combined(op: Bitwise, x: bool, y: bool) {
    match op
    case And => x && y
    case Or => x || y
    case Xor => x != y
  }

  lemma HalfFirst(x: nat, p: nat)
    requires p > 0
    ensures x / (2 * p) == x / 2 / p
  {
    var half := x / 2;
    var q, r := half / p, half % p;
    assert half == q * p + r;
    assert x == q * (2 * p) + (2 * r + x % 2) by {
      assert q * (2 * p) == 2 * (q * p);
    }
    Quotient(x, 2 * p, q, 2 * r + x % 2);
  }

  /** Each bit of words that are combined is that of theirs. */
  lemma {:induction false} BitsAt(op: Bitwise, x: nat, y: nat, k: nat)
    ensures Bit(Bits(op, x, y), k) <==> Combined(op, Bit(x, k), Bit(y, k))
    decreases k
  {
    if x == 0 && y == 0 {
      NoBits(k);
    } else {
      var b := Bits(op, x, y);
      assert b / 2 == Bits(op, x / 2, y / 2) && (b % 2 == 1 <==> Combined(op, x % 2 == 1, y % 2 == 1));
      if k > 0 {
        BitAbove(x, k);
        BitAbove(y, k);
        BitAbove(b, k);
        BitsAt(op, x / 2, y / 2, k - 1);
      } else {
        BitBelow(x);
        BitBelow(y);
        BitBelow(b);
      }
    }
  }

  lemma NoBits(k: nat)
    ensures !Bit(0, k)
  {
  }

  lemma BitBelow(x: nat)
    ensures Bit(x, 0) <==> x % 2 == 1
  {
  }

  lemma BitAbove(x: nat, k: nat)
    requires k > 0
    ensures Bit(x, k) <==> Bit(x / 2, k - 1)
  {
    HalfFirst(x, Power2(k - 1));
  }

  /** Whether a word has the bits of two, combined. */
  ghost predicate HasBits(op: Bitwise, l: U64, r: U64, q: U64) {
    forall k: nat :: Bit(q, k) <==> Combined(op, Bit(l, k), Bit(r, k))
  }

  lemma BitsOfHas(op: Bitwise, l: U64, r: U64)
    ensures HasBits(op, l, r, BitsOf(op, l, r))
  {
    forall k: nat ensures Bit(BitsOf(op, l, r), k) <==> Combined(op, Bit(l, k), Bit(r, k)) {
      BitsAt(op, l, r, k);
    }
  }

  /** Whether a number is one times another, rounded down. */
  predicate IsFloor(x: int, d: int, q: int) { q * d <= x < q * d + d }

  lemma FloorOf(x: int, d: int)
    requires d > 0
    ensures IsFloor(x, d, x / d)
  {
  }

  /** A shift down by any amount is a division by as many times 2, rounded down, and one up a product, in 64 bits. */
  lemma ShiftsAreRight(l: U64, r: U64)
    ensures Same(CodeBin(BinShl, l, r), l * Power2(r))
    ensures IsFloor(l, Power2(r), CodeBin(BinShr, l, r))
  {
    if r < 64 {
      WrappedIsSame(l * Power2(r));
      FloorOf(l, Power2(r));
    } else {
      Power64();
      PowerSum(64, r - 64);
      NothingIsLeft(l, Power2(r), Power2(r - 64));
    }
  }

  lemma NothingIsLeft(l: U64, p: nat, more: nat)
    requires p == WORD * more && more > 0
    ensures Same(0, l * p) && IsFloor(l, p, 0)
  {
    AtLeast(WORD, more);
    assert l * (WORD * more) == l * more * WORD;
    Quotient(l * more * WORD, WORD, l * more, 0);
  }

  lemma DivisionIsRight(l: U64, r: U64)
    ensures r != 0 ==> IsFloor(l, r, CodeBin(BinUDiv, l, r))
    ensures r != 0 ==> CodeBin(BinURem, l, r) < r && CodeBin(BinUDiv, l, r) * r + CodeBin(BinURem, l, r) == l
  {
    if r != 0 {
      FloorOf(l, r);
      assert l == l / r * r + l % r;
    }
  }

  /** The low bits of a word, as they are signed. */
  function LowSigned(width: nat, x: U64): int
    requires 1 <= width
  {
    var low := x % Power2(width);
    if low >= Power2(width - 1) then low - Power2(width) else low
  }

  lemma Spread(x: nat, p: nat, s: nat)
    requires p > 0 && s > 0
    ensures x * s % (p * s) == x % p * s
  {
    var q, r := x / p, x % p;
    assert x == q * p + r;
    assert x * s == q * (p * s) + r * s by {
      assert (q * p + r) * s == q * p * s + r * s;
      assert q * p * s == q * (p * s);
    }
    assert r * s < p * s;
    Quotient(x * s, p * s, q, r * s);
  }

  /** The two shifts of a sign extension give the low bits as they are signed, in 64 bits. */
  lemma ExtensionIsRight(width: nat, x: U64)
    requires 1 <= width <= 64
    ensures CodeExtend(width, x) == Wrapped(LowSigned(width, x))
  {
    Power64();
    if width < 64 {
      var s, p, half := Power2(64 - width), Power2(width), Power2(width - 1);
      PowerSum(width, 64 - width);
      PowerSum(width - 1, 64 - width);
      Spread(x, p, s);
      assert ShiftLeft(x, 64 - width) == x % p * s;
      ShiftedSign(x % p, half, s);
    }
  }

  lemma ShiftedSign(low: nat, half: nat, s: nat)
    requires half * s == HALF && low < 2 * half && s > 0
    ensures low * s < WORD
    ensures Floor(Signed(low * s), s) == if low >= half then low - 2 * half else low
  {
    Times(low, half, s);
    var shifted := if low >= half then low - 2 * half else low;
    assert Signed(low * s) == shifted * s;
    Exact(shifted, s);
  }

  lemma Times(low: nat, half: nat, s: nat)
    requires half * s == HALF && low < 2 * half && s > 0
    ensures low * s < WORD && (low >= half <==> low * s >= HALF) && (low - 2 * half) * s == low * s - WORD
  {
    assert (low - 2 * half) * s == low * s - 2 * (half * s);
    assert low < 2 * half ==> (low - 2 * half) * s < 0;
    assert low >= half ==> (low - half) * s >= 0;
    assert low < half ==> (low - half) * s < 0;
    assert (low - half) * s == low * s - half * s;
  }

  lemma Exact(i: int, s: int)
    requires s > 0
    ensures Floor(i * s, s) == i
  {
    var product, q := i * s, Floor(i * s, s);
    assert product == q * s + product % s;
    assert (q - i) * s == q * s - i * s;
    NoMultiple(q - i, s);
  }

  lemma NoMultiple(k: int, s: int)
    requires -s < k * s < s
    ensures k == 0
  {
    if k >= 1 {
      AtLeast(s, k);
    } else if k <= -1 {
      assert k * s == -(s * -k);
      AtLeast(s, -k);
    }
  }

  // ---------- The operations that compute ----------

  /** Whether an operation works out a value of slots, and goes on. */
  predicate Computes(op: Op) {
    || op.Set? || op.Move? || op.AddTo? || op.Binary? || op.AndWith?
    || op.SignExtend? || op.Select? || op.Neg? || op.Not? || op.AShr?
  }

  /** The slots that an operation that computes reads. */
  function Reads(op: Op): seq<nat> {
    match op
    case Move(_, src) => [src]
    case AddTo(_, src, _) => [src]
    case Binary(_, _, left, right) => [left, right]
    case AndWith(_, src, _) => [src]
    case SignExtend(_, _, src) => [src]
    case Select(_, condition, yes, no) => [condition, yes, no]
    case Neg(_, src) => [src]
    case Not(_, src) => [src]
    case AShr(_, _, left, right) => [left, right]
    case _ => []
  }

  function GetAll(slots: seq<U64>, places: seq<nat>): seq<U64> {
    seq(|places|, i requires 0 <= i < |places| => Get(slots, places[i]))
  }

  /** What it computes of them. */
  function Compute(op: Op, args: seq<U64>): U64 {
    if |args| != |Reads(op)| then 0
    else match op
      case Set(_, value) => value
      case Move(_, _) => args[0]
      case AddTo(_, _, immediate) => Wrapped(args[0] + immediate)
      case Binary(bin, _, _, _) => CodeBin(bin, args[0], args[1])
      case AndWith(_, _, immediate) => BitsOf(And, args[0], immediate)
      case SignExtend(width, _, _) => if 1 <= width <= 64 then CodeExtend(width, args[0]) else 0
      case Select(_, _, _, _) => if args[0] != 0 then args[1] else args[2]
      case Neg(_, _) => Wrapped(-(args[0] as int))
      case Not(_, _) => BitsOf(Xor, args[0], ONES)
      case AShr(width, _, _, _) => if 1 <= width <= 64 then CodeAShr(width, args[0], args[1]) else 0
      case _ => 0
  }

  // ---------- What each is promised to compute ----------

  /** What an operation of two slots is to come to. */
  ghost predicate Means(bin: Bin, l: U64, r: U64, q: U64) {
    match bin
    case BinAdd => Same(q, l + r)
    case BinSub => Same(q, l - r)
    case BinMul => Same(q, l * r)
    case BinAnd => HasBits(And, l, r, q)
    case BinOr => HasBits(Or, l, r, q)
    case BinXor => HasBits(Xor, l, r, q)
    case BinShl => Same(q, l * Power2(r))
    case BinShr => IsFloor(l, Power2(r), q)
    case BinUDiv => if r == 0 then q == ONES else IsFloor(l, r, q)
    case BinURem => if r == 0 then q == l else q < r && exists p: nat :: p * r + q == l
    case BinSDiv => IsSignedQuotient(l, r, q)
    case BinSRem => IsSignedRemainder(l, r, q)
    case BinEq => Says(q, l == r)
    case BinNe => Says(q, l != r)
    case BinLt => Says(q, l < r)
    case BinLe => Says(q, l <= r)
    case BinGt => Says(q, r < l)
    case BinGe => Says(q, r <= l)
    case BinSLt => Says(q, Signed(l) < Signed(r))
    case BinSLe => Says(q, Signed(l) <= Signed(r))
    case BinSGt => Says(q, Signed(r) < Signed(l))
    case BinSGe => Says(q, Signed(r) <= Signed(l))
  }

  /** Whether a word is 1 just if something is so, and otherwise 0. */
  predicate Says(q: U64, b: bool) { q <= 1 && (q == 1 <==> b) }

  /** The signed number of a word is the one that it is congruent to in 64 bits, from -2^63 to below 2^63. */
  lemma SignedIs(u: U64, i: int)
    ensures Signed(u) == i <==> Same(u, i) && -0x8000_0000_0000_0000 <= i < 0x8000_0000_0000_0000
  {
  }

  /** How the comparisons hang together, unsigned and signed. */
  lemma ComparisonsTie(l: U64, r: U64)
    ensures CodeBin(BinNe, l, r) == 1 - CodeBin(BinEq, l, r)
    ensures CodeBin(BinGe, l, r) == 1 - CodeBin(BinLt, l, r) && CodeBin(BinSGe, l, r) == 1 - CodeBin(BinSLt, l, r)
    ensures CodeBin(BinGt, l, r) == CodeBin(BinLt, r, l) && CodeBin(BinSGt, l, r) == CodeBin(BinSLt, r, l)
    ensures CodeBin(BinLe, l, r) == 1 - CodeBin(BinGt, l, r) && CodeBin(BinSLe, l, r) == 1 - CodeBin(BinSGt, l, r)
    ensures CodeBin(BinLe, l, r) == CodeBin(BinLt, l, r) + CodeBin(BinEq, l, r)
    ensures CodeBin(BinSLe, l, r) == CodeBin(BinSLt, l, r) + CodeBin(BinEq, l, r)
    ensures (l < HALF <==> r < HALF) ==> CodeBin(BinSLt, l, r) == CodeBin(BinLt, l, r)
    ensures l >= HALF > r ==> CodeBin(BinSLt, l, r) == 1
  {
  }

  ghost predicate IsSignedRemainder(l: U64, r: U64, q: U64) {
    if r == 0 then q == l
    else if l == HALF && r == ONES then q == 0
    else exists p: int :: IsCut(Signed(l), Signed(r), p) && Signed(q) == Signed(l) - p * Signed(r)
  }

  lemma BinIsRight(bin: Bin, l: U64, r: U64)
    ensures Means(bin, l, r, CodeBin(bin, l, r))
  {
    match bin
    case BinAdd => WrappedIsSame(l + r);
    case BinSub => WrappedIsSame(l - r);
    case BinMul => WrappedIsSame(l * r);
    case BinAnd => BitsOfHas(And, l, r);
    case BinOr => BitsOfHas(Or, l, r);
    case BinXor => BitsOfHas(Xor, l, r);
    case BinShl => ShiftsAreRight(l, r);
    case BinShr => ShiftsAreRight(l, r);
    case BinUDiv => DivisionIsRight(l, r);
    case BinURem => DivisionIsRight(l, r);
    case BinSDiv => SignedQuotientIsRight(l, r);
    case BinSRem => RemainderIsRight(l, r);
    case _ =>
  }

  lemma RemainderIsRight(l: U64, r: U64)
    ensures IsSignedRemainder(l, r, CodeBin(BinSRem, l, r))
  {
    SignedQuotientIsRight(l, r);
    SignedRemainderIsRight(l, r);
    var p: int := Signed(CodeBin(BinSDiv, l, r));
    assert r != 0 && !(l == HALF && r == ONES) ==> IsCut(Signed(l), Signed(r), p);
  }

  /** What an operation is to compute of slots (obligation 1 of Bap/Jit.lean). */
  ghost predicate Promised(op: Op, slots: seq<U64>, value: U64)
    requires Computes(op)
  {
    match op
    case Set(_, immediate) => value == immediate
    case Move(_, src) => value == Get(slots, src)
    case AddTo(_, src, immediate) => Same(value, Get(slots, src) + immediate)
    case Binary(bin, _, left, right) => Means(bin, Get(slots, left), Get(slots, right), value)
    case AndWith(_, src, immediate) => HasBits(And, Get(slots, src), immediate, value)
    case SignExtend(width, _, src) => 1 <= width <= 64 ==> Same(value, LowSigned(width, Get(slots, src)))
    case Select(_, condition, yes, no) => value == Get(slots, if Get(slots, condition) != 0 then yes else no)
    case Neg(_, src) => (value + Get(slots, src)) % WORD == 0
    case Not(_, src) => value + Get(slots, src) == ONES
    case AShr(width, _, left, right) =>
      var amount := Get(slots, right);
      1 <= width <= 64 ==>
        IsFloor(Signed(Get(slots, left)), Power2(if amount >= width then width - 1 else amount), Signed(value))
    case _ => false
  }

  lemma ShiftIsRight(width: nat, x: U64, r: U64)
    requires 1 <= width <= 64
    ensures IsFloor(Signed(x), Power2(if r >= width then width - 1 else r), Signed(CodeAShr(width, x, r)))
  {
    var amount := if r >= width then width - 1 else r;
    var d: int := Power2(amount);
    FloorOf(Signed(x), d);
    FloorIsSmall(Signed(x), d, Signed(x) / d);
    SignedOfWrapped(Signed(x) / d);
  }

  lemma FloorIsSmall(x: int, d: int, q: int)
    requires d > 0 && IsFloor(x, d, q)
    ensures x >= 0 ==> 0 <= q <= x
    ensures x < 0 ==> x <= q < 0
  {
    if q >= 1 {
      AtLeast(q, d);
    } else if q <= -1 {
      BelowZero(x, d, q);
    }
  }

  lemma BelowZero(x: int, d: int, q: int)
    requires d > 0 && q <= -1 && IsFloor(x, d, q)
    ensures x <= q && x < 0
  {
    AtLeast(-q - 1, d);
    assert (-q - 1) * d == -(q * d) - d;
  }

  lemma NegIsRight(x: int)
    requires 0 <= x < WORD
    ensures (Wrapped(-x) + x) % WORD == 0
  {
    assert x > 0 ==> Wrapped(-x) == WORD - x;
  }

  lemma {:induction false} NotIsLeft(x: nat, k: nat, mask: nat)
    requires mask == Power2(k) - 1 && x <= mask
    ensures Bits(Xor, x, mask) + x == mask
    decreases k
  {
    if k > 0 {
      var half, left := mask / 2, x / 2;
      assert mask == 2 * half + 1 && half == Power2(k - 1) - 1;
      assert x == 2 * left + x % 2;
      NotIsLeft(left, k - 1, half);
    }
  }

  /** The code of every operation that computes gives what is promised of it. */
  lemma ComputeIsRight(op: Op, slots: seq<U64>)
    requires Computes(op)
    ensures Promised(op, slots, Compute(op, GetAll(slots, Reads(op))))
  {
    match op
    case AddTo(_, src, immediate) => WrappedIsSame(Get(slots, src) + immediate);
    case Binary(bin, _, left, right) => BinIsRight(bin, Get(slots, left), Get(slots, right));
    case AndWith(_, src, immediate) => BitsOfHas(And, Get(slots, src), immediate);
    case SignExtend(width, _, src) =>
      if 1 <= width <= 64 {
        ExtensionIsRight(width, Get(slots, src));
        WrappedIsSame(LowSigned(width, Get(slots, src)));
      }
    case Neg(_, src) => NegIsRight(Get(slots, src));
    case Not(_, src) =>
      Power64();
      NotIsLeft(Get(slots, src), 64, ONES);
    case AShr(width, _, left, right) =>
      if 1 <= width <= 64 {
        ShiftIsRight(width, Get(slots, left), Get(slots, right));
      }
    case _ =>
  }
}
