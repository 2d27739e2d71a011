/** Bytes as numbers, and the bitwise AND a flash cell performs when it is programmed. */
module Bytes {
  type byte = x: int | 0 <= x < 256

  function Zeros(n: nat): (r: seq<byte>)
    ensures |r| == n && forall i :: 0 <= i < n ==> r[i] == 0
  {
    seq(n, _ => 0)
  }

  function Sum(bs: seq<byte>): nat {
    if bs == [] then 0 else Sum(bs[..|bs| - 1]) + bs[|bs| - 1]
  }

  function Pow2(n: nat): (r: nat)
    ensures r >= 1
  {
    if n == 0 then 1 else 2 * Pow2(n - 1)
  }

  /** The AND of the lowest `n` bits. */
  function AndBits(a: nat, b: nat, n: nat): (r: nat)
    ensures r <= a
  {
    if n == 0 then 0
    else (if a % 2 == 1 && b % 2 == 1 then 1 else 0) + 2 * AndBits(a / 2, b / 2, n - 1)
  }

  function And(a: byte, b: byte): byte {
    AndBits(a, b, 8)
  }

  /** Bit `i`, counted from the lowest. */
  predicate Bit(x: nat, i: nat) {
    if i == 0 then x % 2 == 1 else Bit(x / 2, i - 1)
  }

  lemma {:induction false} AndBitsBit(a: nat, b: nat, n: nat, i: nat)
    requires i < n
    ensures Bit(AndBits(a, b, n), i) <==> Bit(a, i) && Bit(b, i)
    decreases n
  {
    assert AndBits(a, b, n) / 2 == AndBits(a / 2, b / 2, n - 1);
    if i > 0 {
      AndBitsBit(a / 2, b / 2, n - 1, i - 1);
    }
  }

  /** The AND is the AND of every bit. */
  lemma AndBit(a: byte, b: byte, i: nat)
    requires i < 8
    ensures Bit(And(a, b), i) <==> Bit(a, i) && Bit(b, i)
  {
    AndBitsBit(a, b, 8, i);
  }

  lemma {:induction false} AndBitsOnes(x: nat, n: nat)
    requires x < Pow2(n)
    ensures AndBits(Pow2(n) - 1, x, n) == x && AndBits(x, x, n) == x
  {
    if n > 0 {
      AndBitsOnes(x / 2, n - 1);
      assert (Pow2(n) - 1) / 2 == Pow2(n - 1) - 1 && (Pow2(n) - 1) % 2 == 1;
    }
  }

  lemma {:induction false} AndBitsAbsorb(a: nat, b: nat, n: nat)
    ensures AndBits(AndBits(a, b, n), b, n) == AndBits(a, b, n)
  {
    if n > 0 {
      var t := AndBits(a / 2, b / 2, n - 1);
      AndBitsAbsorb(a / 2, b / 2, n - 1);
      assert AndBits(a, b, n) / 2 == t;
    }
  }

  /** Programming an erased cell stores the byte. */
  lemma AndErased(b: byte)
    ensures And(255, b) == b
  {
    assert Pow2(4) == 16;
    AndBitsOnes(b, 8);
  }

  /** Programming a cell with its own value keeps it, and programming twice is programming once. */
  lemma AndAgain(a: byte, b: byte)
    ensures And(b, b) == b && And(And(a, b), b) == And(a, b)
  {
    assert Pow2(4) == 16;
    AndBitsOnes(b, 8);
    AndBitsAbsorb(a, b, 8);
  }
}
