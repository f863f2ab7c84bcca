/**
 Positional notation in an arbitrary base, most significant digit first.

 Base58 (base 256 to base 58 and back) and the BIP-0039 bit packing
 (base 256 to base 2 to base 2048) are both changes of base, so they share
 the definitions and round-trip lemmas of this module.

 The non-linear arithmetic facts the proofs need are stated once, in small
 lemmas at the end of the module, so that each proof obligation stays small.
 */
module Digits {

  function Pow(b: nat, e: nat): (r: nat)
    ensures b > 0 ==> r > 0
  {
    if e == 0 then 1 else b * Pow(b, e - 1)
  }

  /** Every element of `d` is a digit of base `base`. */
  predicate IsDigits(d: seq<nat>, base: nat) {
    forall i :: 0 <= i < |d| ==> d[i] < base
  }

  /** `d` is empty or starts with a non-zero digit. */
  predicate NoLeadingZero(d: seq<nat>) {
    |d| == 0 || d[0] != 0
  }

  /** The number whose base-`base` digits, most significant first, are `d`. */
  function FromDigits(d: seq<nat>, base: nat): nat
  {
    if |d| == 0 then 0 else FromDigits(d[..|d| - 1], base) * base + d[|d| - 1]
  }

  /** The shortest digit string of `n`: empty for zero, no leading zero otherwise. */
  function ToDigits(n: nat, base: nat): (d: seq<nat>)
    requires base >= 2
    ensures IsDigits(d, base)
    ensures NoLeadingZero(d)
    ensures n == 0 <==> |d| == 0
    decreases n
  {
    if n == 0 then [] else ToDigits(n / base, base) + [n % base]
  }

  /** The digit string of `n` padded or truncated to exactly `width` digits. */
  function ToFixedDigits(n: nat, width: nat, base: nat): (d: seq<nat>)
    requires base >= 2
    ensures |d| == width
    ensures IsDigits(d, base)
  {
    if width == 0 then [] else ToFixedDigits(n / base, width - 1, base) + [n % base]
  }

  lemma FromDigitsAppend(d: seq<nat>, x: nat, base: nat)
    ensures FromDigits(d + [x], base) == FromDigits(d, base) * base + x
  {
    assert (d + [x])[..|d + [x]| - 1] == d;
  }

  /** Reading back the shortest digit string of `n` gives `n`. */
  lemma {:induction false} FromToDigits(n: nat, base: nat)
    requires base >= 2
    ensures FromDigits(ToDigits(n, base), base) == n
    decreases n
  {
    if n > 0 {
      DivLess(n, base);
      FromToDigits(n / base, base);
      FromDigitsAppend(ToDigits(n / base, base), n % base, base);
      DivMod(n, base);
    }
  }

  /** A digit string starting with a non-zero digit denotes a positive number. */
  lemma {:induction false} FromDigitsPositive(d: seq<nat>, base: nat)
    requires base >= 1
    requires |d| > 0 && d[0] != 0
    ensures FromDigits(d, base) > 0
    decreases |d|
  {
    if |d| > 1 {
      FromDigitsPositive(d[..|d| - 1], base);
      MulPositive(FromDigits(d[..|d| - 1], base), base);
    }
  }

  /** A digit string without leading zero is the shortest digit string of its value. */
  lemma {:induction false} ToFromDigits(d: seq<nat>, base: nat)
    requires base >= 2
    requires IsDigits(d, base) && NoLeadingZero(d)
    ensures ToDigits(FromDigits(d, base), base) == d
    decreases |d|
  {
    if |d| > 0 {
      var p, x := d[..|d| - 1], d[|d| - 1];
      assert d == p + [x];
      var n := FromDigits(d, base);
      DivModOf(FromDigits(p, base), x, base);
      FromDigitsPositive(d, base);
      assert ToDigits(n, base) == ToDigits(FromDigits(p, base), base) + [x];
      if |p| > 0 {
        ToFromDigits(p, base);
      }
    }
  }

  /** A number below `base^width` survives the trip through `width` digits. */
  lemma {:induction false} FromFixedDigits(n: nat, width: nat, base: nat)
    requires base >= 2
    requires n < Pow(base, width)
    ensures FromDigits(ToFixedDigits(n, width, base), base) == n
  {
    if width > 0 {
      DivBound(n, base, Pow(base, width - 1));
      FromFixedDigits(n / base, width - 1, base);
      FromDigitsAppend(ToFixedDigits(n / base, width - 1, base), n % base, base);
      DivMod(n, base);
    }
  }

  /** Any digit string is the fixed-width digit string of its value. */
  lemma {:induction false} FixedFromDigits(d: seq<nat>, base: nat)
    requires base >= 2
    requires IsDigits(d, base)
    ensures ToFixedDigits(FromDigits(d, base), |d|, base) == d
    decreases |d|
  {
    if |d| > 0 {
      var p, x := d[..|d| - 1], d[|d| - 1];
      assert d == p + [x];
      DivModOf(FromDigits(p, base), x, base);
      FixedFromDigits(p, base);
    }
  }

  /** A digit string of length `k` denotes a number below `base^k`. */
  lemma {:induction false} FromDigitsBound(d: seq<nat>, base: nat)
    requires base >= 1
    requires IsDigits(d, base)
    ensures FromDigits(d, base) < Pow(base, |d|)
    decreases |d|
  {
    if |d| > 0 {
      var p := d[..|d| - 1];
      FromDigitsBound(p, base);
      MulAddBound(FromDigits(p, base), Pow(base, |p|), d[|d| - 1], base);
    }
  }

  /** Prepending a digit adds it at the weight of the digits that follow. */
  lemma {:induction false} FromDigitsPrepend(x: nat, d: seq<nat>, base: nat)
    ensures FromDigits([x] + d, base) == x * Pow(base, |d|) + FromDigits(d, base)
    decreases |d|
  {
    if |d| > 0 {
      var p := d[..|d| - 1];
      assert ([x] + d)[..|[x] + d| - 1] == [x] + p;
      FromDigitsPrepend(x, p, base);
      Distribute(x, Pow(base, |p|), FromDigits(p, base), base);
    }
  }

  /** The sequence of `n` copies of `x`. */
  function Repeat<T>(x: T, n: nat): (s: seq<T>)
    ensures |s| == n
    ensures forall i :: 0 <= i < n ==> s[i] == x
  {
    seq(n, _ => x)
  }

  /** Leading zero digits do not change the value. */
  lemma {:induction false} FromDigitsLeadingZeros(z: nat, d: seq<nat>, base: nat)
    ensures FromDigits(Repeat<nat>(0, z) + d, base) == FromDigits(d, base)
    decreases z
  {
    if z > 0 {
      var rest := Repeat<nat>(0, z - 1) + d;
      assert Repeat<nat>(0, z) + d == [0] + rest;
      FromDigitsPrepend(0, rest, base);
      assert 0 * Pow(base, |rest|) == 0;
      FromDigitsLeadingZeros(z - 1, d, base);
    } else {
      assert Repeat<nat>(0, z) + d == d;
    }
  }

  /** The leading digit bounds the value: `[x] + d` denotes less than `(x + 1) * base^|d|`. */
  lemma FromDigitsLeadingBound(x: nat, d: seq<nat>, base: nat)
    requires base >= 1
    requires IsDigits(d, base)
    ensures FromDigits([x] + d, base) < (x + 1) * Pow(base, |d|)
  {
    FromDigitsPrepend(x, d, base);
    FromDigitsBound(d, base);
    AddBelowNext(x, Pow(base, |d|), FromDigits(d, base));
  }

  /** A number below `base^k` has at most `k` digits. */
  lemma {:induction false} ToDigitsLength(n: nat, base: nat, k: nat)
    requires base >= 2
    requires n < Pow(base, k)
    ensures |ToDigits(n, base)| <= k
    decreases n
  {
    if n > 0 {
      assert k > 0;
      DivBound(n, base, Pow(base, k - 1));
      DivLess(n, base);
      ToDigitsLength(n / base, base, k - 1);
    }
  }

  /** Exponents add under multiplication. */
  lemma {:induction false} PowAdd(b: nat, x: nat, y: nat)
    ensures Pow(b, x + y) == Pow(b, x) * Pow(b, y)
    decreases y
  {
    if y > 0 {
      PowAdd(b, x, y - 1);
      assert Pow(b, x + y) == b * Pow(b, x + y - 1);
      MulSwap(b, Pow(b, x), Pow(b, y - 1));
    }
  }

  /** A power of a power multiplies the exponents. */
  lemma {:induction false} PowPow(b: nat, x: nat, y: nat)
    ensures Pow(Pow(b, x), y) == Pow(b, x * y)
    decreases y
  {
    if y > 0 {
      PowPow(b, x, y - 1);
      assert x * y == x + x * (y - 1);
      PowAdd(b, x, x * (y - 1));
    }
  }

  /** Powers are monotone in the base. */
  lemma {:induction false} PowBaseMonotone(a: nat, c: nat, e: nat)
    requires a <= c
    ensures Pow(a, e) <= Pow(c, e)
    decreases e
  {
    if e > 0 {
      PowBaseMonotone(a, c, e - 1);
      MulBothMonotone(a, Pow(a, e - 1), c, Pow(c, e - 1));
    }
  }

  // Arithmetic facts, each proved in isolation.

  lemma DivMod(n: nat, b: nat)
    requires b > 0
    ensures n == (n / b) * b + n % b
  {}

  lemma DivLess(n: nat, b: nat)
    requires n > 0 && b >= 2
    ensures n / b < n
  {}

  lemma DivModOf(q: nat, r: nat, b: nat)
    requires r < b
    ensures (q * b + r) / b == q
    ensures (q * b + r) % b == r
  {
    var n := q * b + r;
    DivMod(n, b);
    var q', r' := n / b, n % b;
    if q' > q {
      MulMonotone(q + 1, q', b);
      assert false;
    } else if q' < q {
      MulMonotone(q' + 1, q, b);
      assert false;
    }
  }

  lemma MulMonotone(a: nat, c: nat, b: nat)
    requires a <= c
    ensures a * b <= c * b
  {}

  lemma DivBound(n: nat, b: nat, p: nat)
    requires b > 0
    requires n < b * p
    ensures n / b < p
  {}

  lemma MulPositive(a: nat, b: nat)
    requires a > 0 && b > 0
    ensures a * b > 0
  {}

  lemma MulAddBound(a: nat, p: nat, x: nat, b: nat)
    requires a < p && x < b
    ensures a * b + x < b * p
  {
    assert a * b <= (p - 1) * b;
  }

  lemma Distribute(x: nat, p: nat, f: nat, b: nat)
    ensures (x * p + f) * b == x * (b * p) + f * b
  {}

  lemma AddBelowNext(x: nat, p: nat, f: nat)
    requires f < p
    ensures x * p + f < (x + 1) * p
  {}

  lemma MulSwap(a: nat, b: nat, c: nat)
    ensures a * (b * c) == b * (a * c)
  {}

  lemma MulBothMonotone(a: nat, b: nat, c: nat, d: nat)
    requires a <= c && b <= d
    ensures a * b <= c * d
  {}
}
