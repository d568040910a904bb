/** Words as bytes, in either order (native/bap_jit.cpp:646-650, 374-405). */
module Endian {
  import opened Basics
  import opened PageTable

  function Power(n: nat): (p: nat)
    ensures p > 0
  {
    if n == 0 then 1 else 256 * Power(n - 1)
  }

  /** The low bytes of a value, the least significant first. */
  function Little(value: nat, size: nat): (bytes: seq<Byte>)
    ensures |bytes| == size
    decreases size
  {
    if size == 0 then [] else [value % 256] + Little(value / 256, size - 1)
  }

  function Reversed(bytes: seq<Byte>): (r: seq<Byte>)
    ensures |r| == |bytes| && forall i | 0 <= i < |r| :: r[i] == bytes[|bytes| - 1 - i]
  {
    seq(|bytes|, i requires 0 <= i < |bytes| => bytes[|bytes| - 1 - i])
  }

  /** The bytes of a store in the order of their addresses. */
  function BytesOf(value: nat, size: nat, big: bool): (bytes: seq<Byte>)
    ensures |bytes| == size
  {
    if big then Reversed(Little(value, size)) else Little(value, size)
  }

  /** The value of bytes, the least significant first. */
  function LittleValue(bytes: seq<Byte>): (value: nat)
    ensures value < Power(|bytes|)
  {
    if bytes == [] then 0 else bytes[0] + 256 * LittleValue(bytes[1..])
  }

  function ValueOf(bytes: seq<Byte>, big: bool): nat {
    LittleValue(if big then Reversed(bytes) else bytes)
  }

  /** The bytes of a word the other way round. */
  function Swapped(value: nat, size: nat): nat {
    LittleValue(Reversed(Little(value, size)))
  }

  lemma {:induction false} LittleOfValue(bytes: seq<Byte>)
    ensures Little(LittleValue(bytes), |bytes|) == bytes
    decreases |bytes|
  {
    if bytes != [] {
      LittleOfValue(bytes[1..]);
      var rest := LittleValue(bytes[1..]);
      Quotient(bytes[0] + 256 * rest, 256, rest, bytes[0]);
      assert bytes == [bytes[0]] + bytes[1..];
    }
  }

  lemma {:induction false} ValueOfLittle(value: nat, size: nat)
    ensures LittleValue(Little(value, size)) == value % Power(size)
    decreases size
  {
    if size > 0 {
      ValueOfLittle(value / 256, size - 1);
      LowDigits(value, Power(size - 1));
      assert Little(value, size)[1..] == Little(value / 256, size - 1);
    }
  }

  lemma LowDigits(value: nat, p: nat)
    requires p > 0
    ensures value % (256 * p) == value % 256 + 256 * (value / 256 % p)
  {
    var q, r := value / 256 / p, value / 256 % p;
    assert value / 256 == q * p + r;
    assert value == q * (256 * p) + (256 * r + value % 256) by {
      assert value == 256 * (value / 256) + value % 256;
      assert 256 * (q * p) == q * (256 * p);
    }
    Quotient(value, 256 * p, q, 256 * r + value % 256);
    assert value % (256 * p) == value - q * (256 * p);
  }

  lemma ReversedTwice(bytes: seq<Byte>)
    ensures Reversed(Reversed(bytes)) == bytes
  {
  }

  /** What is loaded as a word of the host and swapped is the value of the bytes in the other order. */
  lemma SwapIsBig(bytes: seq<Byte>)
    ensures Swapped(LittleValue(bytes), |bytes|) == ValueOf(bytes, true)
  {
    LittleOfValue(bytes);
  }

  /** A swapped value stored as a word of the host is its bytes in the other order. */
  lemma StoreOfSwap(value: nat, size: nat)
    ensures Little(Swapped(value, size), size) == BytesOf(value, size, true)
  {
    LittleOfValue(Reversed(Little(value, size)));
  }

  /** What is stored of a value in either order is loaded as its low bytes. */
  lemma StoreThenLoad(value: nat, size: nat, big: bool)
    ensures ValueOf(BytesOf(value, size, big), big) == value % Power(size)
  {
    ReversedTwice(Little(value, size));
    ValueOfLittle(value, size);
  }
}
