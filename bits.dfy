/**
 Fixed-width unsigned binary numbers as sequences of bits, most significant
 bit first: their value, the bits of a number, and how values behave under
 concatenation.
 */
module Bits {

  function Pow2(n: nat): (r: nat)
    ensures r > 0
  {
    if n == 0 then 1 else 2 * Pow2(n - 1)
  }

  lemma {:induction false} Pow2Add(m: nat, n: nat)
    ensures Pow2(m + n) == Pow2(m) * Pow2(n)
    decreases n
  {
    if n > 0 {
      Pow2Add(m, n - 1);
      assert Pow2(m + n) == 2 * Pow2(m + n - 1);
    }
  }

  /** The number a bit sequence denotes, most significant bit first. */
  function Value(b: seq<bool>): nat
    decreases |b|
  {
    if b == [] then 0 else 2 * Value(b[..|b| - 1]) + (if b[|b| - 1] then 1 else 0)
  }

  /** The `n` low-order bits of `x`, most significant first. */
  function ToBits(x: nat, n: nat): (b: seq<bool>)
    ensures |b| == n
    decreases n
  {
    if n == 0 then [] else ToBits(x / 2, n - 1) + [x % 2 == 1]
  }

  function Zeros(n: nat): (b: seq<bool>)
    ensures |b| == n && forall i :: 0 <= i < n ==> !b[i]
  {
    seq(n, _ => false)
  }

  function Ones(n: nat): (b: seq<bool>)
    ensures |b| == n && forall i :: 0 <= i < n ==> b[i]
  {
    seq(n, _ => true)
  }

  /** `n` bits can hold values below 2^n only. */
  lemma {:induction false} ValueBound(b: seq<bool>)
    ensures Value(b) < Pow2(|b|)
    decreases |b|
  {
    if b != [] {
      ValueBound(b[..|b| - 1]);
    }
  }

  /** The bits of a number that fits in `n` bits denote that number. */
  lemma {:induction false} ValueOfToBits(x: nat, n: nat)
    requires x < Pow2(n)
    ensures Value(ToBits(x, n)) == x
    decreases n
  {
    if n > 0 {
      var b := ToBits(x, n);
      assert b[..n - 1] == ToBits(x / 2, n - 1);
      ValueOfToBits(x / 2, n - 1);
    }
  }

  /** A bit sequence is the `|b|`-bit rendering of its own value. */
  lemma {:induction false} ToBitsOfValue(b: seq<bool>)
    ensures ToBits(Value(b), |b|) == b
    decreases |b|
  {
    if b != [] {
      var prefix := b[..|b| - 1];
      ToBitsOfValue(prefix);
      assert b == prefix + [b[|b| - 1]];
    }
  }

  /** Appending `y` shifts the value of `x` left by `|y|` bits and adds the value of `y`. */
  lemma {:induction false} ValueConcat(x: seq<bool>, y: seq<bool>)
    ensures Value(x + y) == Value(x) * Pow2(|y|) + Value(y)
    decreases |y|
  {
    if y == [] {
      assert x + y == x;
    } else {
      var y' := y[..|y| - 1];
      assert (x + y)[..|x + y| - 1] == x + y';
      ValueConcat(x, y');
      var d := if y[|y| - 1] then 1 else 0;
      assert Value(x + y) == 2 * Value(x + y') + d;
      assert y[..|y| - 1] == y';
      assert Value(y) == 2 * Value(y') + d;
      ShiftStep(Value(x), Pow2(|y'|), Value(y'), d);
    }
  }

  lemma ShiftStep(v: int, p: int, w: int, d: int)
    ensures 2 * (v * p + w) + d == v * (2 * p) + (2 * w + d)
  {
  }

  lemma {:induction false} ValueZeros(n: nat)
    ensures Value(Zeros(n)) == 0
    decreases n
  {
    if n > 0 {
      assert Zeros(n)[..n - 1] == Zeros(n - 1);
      ValueZeros(n - 1);
    }
  }

  lemma {:induction false} ValueOnes(n: nat)
    ensures Value(Ones(n)) == Pow2(n) - 1
    decreases n
  {
    if n > 0 {
      assert Ones(n)[..n - 1] == Ones(n - 1);
      ValueOnes(n - 1);
    }
  }

  /** `n` one-bits followed by `m` zero-bits denote 2^(n+m) - 2^m. */
  lemma OnesThenZerosValue(x: seq<bool>, n: nat, m: nat)
    requires x == Ones(n) + Zeros(m)
    ensures Value(x) == Pow2(n + m) - Pow2(m)
  {
    ValueConcat(Ones(n), Zeros(m));
    ValueOnes(n);
    ValueZeros(m);
    Pow2Add(n, m);
  }

  /** Appending `m` zero-bits multiplies the value by 2^m. */
  lemma PrefixZerosValue(n: seq<bool>, x: seq<bool>, m: nat)
    requires n == x + Zeros(m)
    ensures Value(n) == Value(x) * Pow2(m)
  {
    ValueConcat(x, Zeros(m));
    ValueZeros(m);
  }

  /** Leading zero-bits do not change the value. */
  lemma ZerosSuffixValue(h: seq<bool>, n: nat, y: seq<bool>)
    requires h == Zeros(n) + y
    ensures Value(h) == Value(y)
  {
    ValueConcat(Zeros(n), y);
    ValueZeros(n);
  }

  /** Cutting a bit string after `n` bits: the value is the high part shifted by the length of the low part, plus the low part. */
  lemma ValueSplit(x: seq<bool>, n: nat)
    requires n <= |x|
    ensures Value(x) == Value(x[..n]) * Pow2(|x| - n) + Value(x[n..])
  {
    assert x == x[..n] + x[n..];
    ValueConcat(x[..n], x[n..]);
  }
}
