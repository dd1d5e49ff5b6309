/** The restart schedule of the oracle (`InitLuby`/`NextLuby`, oracle/oracle.cpp): a stack of
    powers of two that behaves as a binary counter. After `n` pushes the stack holds the binary
    digits of `n`, highest first, and the value returned by the `n`-th call is the largest power
    of two dividing `n` (1, 2, 1, 4, 1, 2, 1, 8, ...). */
module OracleLuby {

  ghost predicate Pow2(p: nat)
    decreases p
  {
    p == 1 || (p > 1 && p % 2 == 0 && Pow2(p / 2))
  }

  /** The powers `p * 2^i` for the set bits `i` of `x`, the highest first. */
  function Bits(x: nat, p: nat): seq<nat>
    decreases x
  {
    if x == 0 then [] else Bits(x / 2, 2 * p) + (if x % 2 == 1 then [p] else [])
  }

  function Sum(s: seq<nat>): nat {
    if s == [] then 0 else Sum(s[..|s| - 1]) + s[|s| - 1]
  }

  /** `n` with every factor two divided out. */
  function OddPart(n: nat): (r: nat)
    requires n > 0
    ensures r % 2 == 1
    decreases n
  {
    if n % 2 == 1 then n else OddPart(n / 2)
  }

  /** The largest power of two dividing `n`: what is left once the odd part is divided out. */
  function LowPow(n: nat): (r: nat)
    requires n > 0
    ensures Pow2(r) && n == r * OddPart(n)
    decreases n
  {
    if n % 2 == 1 then 1
    else
      var q := LowPow(n / 2);
      assert n == (2 * q) * OddPart(n) by {
        MulTwice(q, OddPart(n / 2));
      }
      2 * q
  }

  lemma MulTwice(a: nat, b: nat)
    ensures 2 * (a * b) == (2 * a) * b
  {
  }

  lemma MulSplit(h: nat, b: nat, p: nat)
    ensures (2 * h + b) * p == h * (2 * p) + b * p
  {
    assert (2 * h + b) * p == 2 * h * p + b * p;
  }

  ghost predicate StrictlyDecreasing(s: seq<nat>) {
    forall i, j :: 0 <= i < j < |s| ==> s[i] > s[j]
  }

  /** The counter's digits are powers of two, each at least the weight `p` of the lowest digit. */
  lemma {:induction false} BitsPowers(x: nat, p: nat)
    requires Pow2(p)
    ensures forall k :: 0 <= k < |Bits(x, p)| ==> Pow2(Bits(x, p)[k]) && Bits(x, p)[k] >= p
    decreases x
  {
    if x > 0 {
      Pow2Positive(p);
      assert Pow2(2 * p);
      BitsPowers(x / 2, 2 * p);
    }
  }

  /** The digits are distinct, the highest first. */
  lemma {:induction false} BitsDecreasing(x: nat, p: nat)
    requires p > 0
    ensures StrictlyDecreasing(Bits(x, p))
    decreases x
  {
    if x > 0 {
      BitsDecreasing(x / 2, 2 * p);
      BitsAtLeast(x / 2, 2 * p);
    }
  }

  lemma {:induction false} BitsAtLeast(x: nat, p: nat)
    requires p > 0
    ensures forall k :: 0 <= k < |Bits(x, p)| ==> Bits(x, p)[k] >= p
    decreases x
  {
    if x > 0 {
      BitsAtLeast(x / 2, 2 * p);
    }
  }

  /** The digits add up to `x * p`: after `n` pushes the stack sums to `n`. */
  lemma {:induction false} BitsSum(x: nat, p: nat)
    ensures Sum(Bits(x, p)) == x * p
    decreases x
  {
    if x > 0 {
      var h, d := x / 2, x % 2;
      BitsSum(h, 2 * p);
      var b := Bits(h, 2 * p);
      var s := Bits(x, p);
      if d == 1 {
        assert s == b + [p];
        assert s[..|s| - 1] == b;
        assert Sum(s) == Sum(b) + p;
      } else {
        assert s == b;
      }
      assert x == 2 * h + d;
      MulSplit(h, d, p);
    }
  }

  lemma Pow2Positive(p: nat)
    requires Pow2(p)
    ensures p >= 1
  {
  }

  /** The stack is non-empty exactly when `x > 0`, and then its top is `p` exactly when `x` is odd. */
  lemma {:induction false} BitsTop(x: nat, p: nat)
    requires p > 0
    ensures |Bits(x, p)| > 0 <==> x > 0
    ensures x > 0 ==> (Bits(x, p)[|Bits(x, p)| - 1] == p <==> x % 2 == 1)
    ensures x > 0 ==> Bits(x, p)[|Bits(x, p)| - 1] >= p
    decreases x
  {
    if x > 0 {
      BitsTop(x / 2, 2 * p);
    }
  }

  /** Doubling the digit weight is halving an even argument. */
  lemma BitsEven(x: nat, p: nat)
    requires x % 2 == 0
    ensures Bits(x, p) == Bits(x / 2, 2 * p)
  {
  }

  /** The top of the counter's stack after `n` pushes is the largest power of two dividing `n`. */
  lemma {:induction false} BitsTopIsLowPow(n: nat, p: nat)
    requires n > 0 && p > 0
    ensures |Bits(n, p)| > 0 && Bits(n, p)[|Bits(n, p)| - 1] == p * LowPow(n)
    decreases n
  {
    BitsTop(n, p);
    if n % 2 == 0 {
      BitsTopIsLowPow(n / 2, 2 * p);
      var q := LowPow(n / 2);
      assert LowPow(n) == 2 * q;
      BitsEven(n, p);
      MulShift(p, q);
    }
  }

  lemma MulShift(p: nat, q: nat)
    ensures p * (2 * q) == (2 * p) * q
  {
  }

  /** A carry of `NextLuby`: the two equal digits of weight `p` on top merge into one of `2p`. */
  lemma CarryStep(y: nat, p: nat)
    requires p > 0 && |Bits(y, p)| > 0 && Bits(y, p)[|Bits(y, p)| - 1] == p
    ensures Bits(y, p) == Bits(y / 2, 2 * p) + [p]
    ensures Bits(y / 2 + 1, 2 * p) == Bits(y + 1, p)
  {
    BitsTop(y, p);
    BitsEven(y + 1, p);
    assert (y + 1) / 2 == y / 2 + 1;
  }

  /** No carry left: pushing the digit `p` onto the stack of `y` is the stack of `y + 1`. */
  lemma CarryDone(y: nat, p: nat)
    requires p > 0 && !(|Bits(y, p)| > 0 && Bits(y, p)[|Bits(y, p)| - 1] == p)
    ensures Bits(y + 1, p) == Bits(y, p) + [p]
  {
    BitsTop(y, p);
    BitsEven(y, p);
    assert (y + 1) / 2 == y / 2;
  }
}
