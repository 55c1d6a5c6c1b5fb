/** Machine words as sequences of bits, least significant bit first.  Both the
    generator's 64-bit integers and the decoders' 32- and 64-bit C integers are
    values of this type; the width is the length of the sequence. */
module Bits {
  type Bits = seq<bool>

  /** An integer of the generator. */
  type Word = w: Bits | |w| == 64 witness Zeros(64)

  function Zeros(n: nat): (r: Bits)
    ensures |r| == n && forall i :: 0 <= i < n ==> !r[i]
  {
    seq(n, _ => false)
  }

  function Ones(n: nat): (r: Bits)
    ensures |r| == n && forall i :: 0 <= i < n ==> r[i]
  {
    seq(n, _ => true)
  }

  function And(x: Bits, y: Bits): (r: Bits)
    requires |x| == |y|
    ensures |r| == |x| && forall i :: 0 <= i < |x| ==> r[i] == (x[i] && y[i])
  {
    seq(|x|, i requires 0 <= i < |x| => x[i] && y[i])
  }

  function Or(x: Bits, y: Bits): (r: Bits)
    requires |x| == |y|
    ensures |r| == |x| && forall i :: 0 <= i < |x| ==> r[i] == (x[i] || y[i])
  {
    seq(|x|, i requires 0 <= i < |x| => x[i] || y[i])
  }

  function Xor(x: Bits, y: Bits): (r: Bits)
    requires |x| == |y|
    ensures |r| == |x| && forall i :: 0 <= i < |x| ==> r[i] == (x[i] != y[i])
  {
    seq(|x|, i requires 0 <= i < |x| => x[i] != y[i])
  }

  function Not(x: Bits): (r: Bits)
    ensures |r| == |x| && forall i :: 0 <= i < |x| ==> r[i] == !x[i]
  {
    seq(|x|, i requires 0 <= i < |x| => !x[i])
  }

  /** `x << n` in the width of `x`: bits pushed past the top are lost. */
  function Shl(x: Bits, n: nat): (r: Bits)
    ensures |r| == |x| && forall i :: 0 <= i < |x| ==> r[i] == (n <= i && x[i - n])
  {
    seq(|x|, i requires 0 <= i < |x| => n <= i && x[i - n])
  }

  /** `x >> n` for an unsigned `x`. */
  function Shr(x: Bits, n: nat): (r: Bits)
    ensures |r| == |x| && forall i :: 0 <= i < |x| ==> r[i] == (i + n < |x| && x[i + n])
  {
    seq(|x|, i requires 0 <= i < |x| => i + n < |x| && x[i + n])
  }

  predicate IsZero(x: Bits) {
    forall i :: 0 <= i < |x| ==> !x[i]
  }

  /** Every bit of `x` is a bit of `y`. */
  predicate Subset(x: Bits, y: Bits) {
    |x| == |y| && forall i :: 0 <= i < |x| && x[i] ==> y[i]
  }

  /** No bit is in both. */
  predicate Disjoint(x: Bits, y: Bits) {
    |x| == |y| && forall i :: 0 <= i < |x| ==> !(x[i] && y[i])
  }

  /** The number whose binary digits these are. */
  function Nat(x: Bits): nat {
    if x == [] then 0 else (if x[0] then 1 else 0) + 2 * Nat(x[1..])
  }

  function Popcount(x: Bits): nat {
    if x == [] then 0 else (if x[0] then 1 else 0) + Popcount(x[1..])
  }

  /** `get_bit_count(value, 1)` of the generator, which answers 1 for 0. */
  function GetBitCount(x: Bits): nat {
    if IsZero(x) then 1 else Popcount(x)
  }

  lemma {:induction false} PopcountSubset(x: Bits, y: Bits)
    requires Subset(x, y)
    ensures Popcount(x) <= Popcount(y)
    ensures x != y ==> Popcount(x) < Popcount(y)
    decreases |x|
  {
    if x != [] {
      PopcountSubset(x[1..], y[1..]);
      assert x == [x[0]] + x[1..] && y == [y[0]] + y[1..];
    }
  }

  lemma ZeroTail(x: Bits)
    requires x != []
    ensures IsZero(x) <==> !x[0] && IsZero(x[1..])
  {
    forall i | 1 <= i < |x|
      ensures x[i] == x[1..][i - 1]
    {
    }
  }

  lemma {:induction false} PopcountZero(x: Bits)
    ensures Popcount(x) == 0 <==> IsZero(x)
  {
    if x != [] {
      ZeroTail(x);
      PopcountZero(x[1..]);
    }
  }

  lemma {:induction false} PopcountAppend(x: Bits, y: Bits)
    ensures Popcount(x + y) == Popcount(x) + Popcount(y)
  {
    if x == [] {
      assert x + y == y;
    } else {
      PopcountAppend(x[1..], y);
      assert (x + y)[1..] == x[1..] + y;
    }
  }

  /** Clearing a bit of `x` that is set lowers the count. */
  lemma PopcountClear(x: Bits, m: Bits)
    requires |x| == |m| && !Disjoint(x, m)
    ensures Popcount(And(x, Not(m))) < Popcount(x)
  {
    var i :| 0 <= i < |x| && x[i] && m[i];
    assert !And(x, Not(m))[i];
    PopcountSubset(And(x, Not(m)), x);
  }

  lemma {:induction false} NatInjective(x: Bits, y: Bits)
    requires |x| == |y| && Nat(x) == Nat(y)
    ensures x == y
  {
    if x != [] {
      NatInjective(x[1..], y[1..]);
      assert x == [x[0]] + x[1..] && y == [y[0]] + y[1..];
    }
  }

  function Pow2(n: nat): (r: nat)
    ensures r > 0
  {
    if n == 0 then 1 else 2 * Pow2(n - 1)
  }

  lemma {:induction false} NatBound(x: Bits)
    ensures Nat(x) < Pow2(|x|)
  {
    if x != [] {
      NatBound(x[1..]);
    }
  }

  lemma {:induction false} NatOfZeros(x: Bits)
    ensures Nat(x) == 0 <==> IsZero(x)
  {
    if x != [] {
      ZeroTail(x);
      NatOfZeros(x[1..]);
    }
  }

  /** The bits above stand for so many times more. */
  lemma {:induction false} NatAppend(x: Bits, y: Bits)
    ensures Nat(x + y) == Nat(x) + Pow2(|x|) * Nat(y)
  {
    if x == [] {
      assert x + y == y;
    } else {
      NatAppend(x[1..], y);
      assert (x + y)[1..] == x[1..] + y;
      assert 2 * (Pow2(|x| - 1) * Nat(y)) == Pow2(|x|) * Nat(y);
    }
  }

  lemma {:induction false} NatTrailingZeros(x: Bits, y: Bits)
    requires IsZero(y)
    ensures Nat(x + y) == Nat(x)
  {
    if x == [] {
      assert x + y == y;
      NatOfZeros(y);
    } else {
      NatTrailingZeros(x[1..], y);
      assert (x + y)[1..] == x[1..] + y;
    }
  }

  /** The low `width` binary digits of `n`. */
  function ToBits(n: nat, width: nat): (r: Bits)
    ensures |r| == width
  {
    if width == 0 then [] else [n % 2 == 1] + ToBits(n / 2, width - 1)
  }

  lemma {:induction false} NatOfToBits(n: nat, width: nat)
    requires n < Pow2(width)
    ensures Nat(ToBits(n, width)) == n
  {
    if width > 0 {
      NatOfToBits(n / 2, width - 1);
    }
  }
}
