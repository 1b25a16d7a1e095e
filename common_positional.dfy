/** Positional notation: powers, the value of a digit sequence in a base, and
    decimal digits (Rust's `ilog10`, `10_u64.pow`). */
module Positional {

  function Pow(b: nat, n: nat): (r: nat)
    ensures b >= 1 ==> r >= 1
  {
    if n == 0 then 1 else b * Pow(b, n - 1)
  }

  lemma {:induction false} PowAdd(b: nat, m: nat, n: nat)
    ensures Pow(b, m + n) == Pow(b, m) * Pow(b, n)
  {
    if n > 0 {
      PowAdd(b, m, n - 1);
      var x, y := Pow(b, m), Pow(b, n - 1);
      assert Pow(b, m + n) == b * (x * y);
      MulSwap(b, x, y);
      assert Pow(b, n) == b * y;
    }
  }

  lemma MulSwap(a: int, x: int, y: int)
    ensures a * (x * y) == x * (a * y)
  {
  }

  lemma {:induction false} PowMonotone(b: nat, m: nat, n: nat)
    requires b >= 1 && m <= n
    ensures Pow(b, m) <= Pow(b, n)
  {
    if m < n {
      PowMonotone(b, m, n - 1);
      assert Pow(b, n) == b * Pow(b, n - 1) >= Pow(b, n - 1);
    }
  }

  lemma PowStrict(b: nat, m: nat, n: nat)
    requires b >= 2 && m < n
    ensures Pow(b, m) < Pow(b, n)
  {
    PowMonotone(b, m, n - 1);
    var p := Pow(b, n - 1);
    assert Pow(b, n) == b * p;
    MulLe(2, b, p);
  }

  predicate DigitsBelow(ds: seq<nat>, b: nat) {
    forall i :: 0 <= i < |ds| ==> ds[i] < b
  }

  /** The value of `ds` read in base `b`, most significant digit first. */
  function ValueIn(ds: seq<nat>, b: nat): nat {
    if ds == [] then 0 else ValueIn(ds[..|ds| - 1], b) * b + ds[|ds| - 1]
  }

  /** Dividing a natural number by a positive one gives a natural number. */
  lemma DivNat(n: nat, d: nat)
    requires d >= 1
    ensures 0 <= n / d <= n
  {
  }

  lemma MulLe(a: nat, b: nat, m: nat)
    requires a <= b
    ensures a * m <= b * m
  {
    assert b * m == a * m + (b - a) * m;
  }

  /** Quotient and remainder recompose the number. */
  lemma DivModParts(n: nat, d: nat)
    requires d >= 1
    ensures n == (n / d) * d + n % d && n % d < d
  {
  }

  /** Quotient and remainder are unique. */
  lemma DivModUnique(q: nat, r: nat, m: nat)
    requires r < m
    ensures (q * m + r) / m == q && (q * m + r) % m == r
  {
    var x := q * m + r;
    var q', r' := x / m, x % m;
    assert x == q' * m + r';
    if q' > q {
      assert (q + 1) * m == q * m + m;
      MulLe(q + 1, q', m);
    } else if q' < q {
      assert (q' + 1) * m == q' * m + m;
      MulLe(q' + 1, q, m);
    }
  }

  lemma {:induction false} ValueInAppend(xs: seq<nat>, ys: seq<nat>, b: nat)
    ensures ValueIn(xs + ys, b) == ValueIn(xs, b) * Pow(b, |ys|) + ValueIn(ys, b)
  {
    if ys == [] {
      assert xs + ys == xs;
    } else {
      var ys', y := ys[..|ys| - 1], ys[|ys| - 1];
      assert (xs + ys)[..|xs + ys| - 1] == xs + ys';
      ValueInAppend(xs, ys', b);
      var a, p, v := ValueIn(xs, b), Pow(b, |ys'|), ValueIn(ys', b);
      assert ValueIn(xs + ys, b) == (a * p + v) * b + y;
      assert ValueIn(ys, b) == v * b + y;
      assert Pow(b, |ys|) == b * p;
      Regroup(a, p, v, b);
    }
  }

  lemma Regroup(a: nat, p: nat, v: nat, b: nat)
    ensures (a * p + v) * b == a * (b * p) + v * b
  {
    calc {
      (a * p + v) * b;
      a * p * b + v * b;
      a * (b * p) + v * b;
    }
  }

  lemma {:induction false} ValueInBound(ds: seq<nat>, b: nat)
    requires b >= 1 && DigitsBelow(ds, b)
    ensures ValueIn(ds, b) < Pow(b, |ds|)
  {
    if ds != [] {
      var init := ds[..|ds| - 1];
      ValueInBound(init, b);
      var v, p := ValueIn(init, b), Pow(b, |init|);
      assert ValueIn(ds, b) == v * b + ds[|ds| - 1];
      assert Pow(b, |ds|) == b * p;
      MulLe(v + 1, p, b);
      assert (v + 1) * b == v * b + b;
    }
  }

  /** A digit sequence whose first digit is not zero is at least b^(len-1). */
  lemma {:induction false} ValueInLowerBound(ds: seq<nat>, b: nat)
    requires |ds| >= 1 && ds[0] >= 1 && b >= 1
    ensures ValueIn(ds, b) >= Pow(b, |ds| - 1)
  {
    if |ds| > 1 {
      var init := ds[..|ds| - 1];
      ValueInLowerBound(init, b);
      MulLe(Pow(b, |init| - 1), ValueIn(init, b), b);
      assert ValueIn(ds, b) >= ValueIn(init, b) * b;
    }
  }

  /** Two digit sequences of the same length with the same value are equal. */
  lemma {:induction false} ValueInInjective(xs: seq<nat>, ys: seq<nat>, b: nat)
    requires |xs| == |ys| && b >= 1 && DigitsBelow(xs, b) && DigitsBelow(ys, b)
    requires ValueIn(xs, b) == ValueIn(ys, b)
    ensures xs == ys
  {
    if xs != [] {
      var n := |xs| - 1;
      DivModUnique(ValueIn(xs[..n], b), xs[n], b);
      DivModUnique(ValueIn(ys[..n], b), ys[n], b);
      ValueInInjective(xs[..n], ys[..n], b);
      assert xs == xs[..n] + [xs[n]] && ys == ys[..n] + [ys[n]];
    }
  }

  /** Splitting the low `k` digits off a value: quotient and remainder by b^k. */
  lemma ValueInSplit(ds: seq<nat>, k: nat, b: nat)
    requires k <= |ds| && b >= 1 && DigitsBelow(ds, b)
    ensures ValueIn(ds, b) / Pow(b, k) == ValueIn(ds[..|ds| - k], b)
    ensures ValueIn(ds, b) % Pow(b, k) == ValueIn(ds[|ds| - k..], b)
  {
    var hi, lo := ds[..|ds| - k], ds[|ds| - k..];
    assert ds == hi + lo;
    ValueInAppend(hi, lo, b);
    ValueInBound(lo, b);
    DivModUnique(ValueIn(hi, b), ValueIn(lo, b), Pow(b, k));
  }
}

/** Decimal notation, as used by Rust's `ilog10`, `10_u64.pow` and `to_string`. */
module Decimal {
  import opened Positional

  function Pow10(n: nat): (r: nat)
    ensures r >= 1
  {
    Pow(10, n)
  }

  /** The value of a sequence of decimal digits, most significant first. */
  function ValueOf(ds: seq<nat>): nat {
    ValueIn(ds, 10)
  }

  /** The decimal digits of `n`, most significant first, without leading zeros. */
  function Digits(n: nat): (r: seq<nat>)
    ensures |r| >= 1 && DigitsBelow(r, 10)
  {
    if n < 10 then [n] else Digits(n / 10) + [n % 10]
  }

  /** Number of decimal digits: Rust's `ilog10() + 1` for n >= 1. */
  function NumDigits(n: nat): (r: nat)
    ensures r >= 1
  {
    |Digits(n)|
  }

  /** Rust's `ilog10`, which panics on zero. */
  function ILog10(n: nat): nat
    requires n >= 1
  {
    NumDigits(n) - 1
  }

  lemma {:induction false} ValueOfDigits(n: nat)
    ensures ValueOf(Digits(n)) == n
  {
    if n >= 10 {
      ValueOfDigits(n / 10);
      var d := Digits(n);
      assert d[..|d| - 1] == Digits(n / 10);
      assert ValueIn(d, 10) == ValueIn(Digits(n / 10), 10) * 10 + n % 10;
    } else {
      assert Digits(n)[..0] == [];
      assert ValueIn([n], 10) == ValueIn([], 10) * 10 + n;
    }
  }

  lemma {:induction false} DigitsLeading(n: nat)
    requires n >= 1
    ensures Digits(n)[0] != 0
  {
    if n >= 10 {
      DigitsLeading(n / 10);
    }
  }

  /** Reading a digit sequence without a leading zero and writing it back gives it again. */
  lemma {:induction false} DigitsOfValue(ds: seq<nat>)
    requires |ds| >= 1 && ds[0] != 0 && DigitsBelow(ds, 10)
    ensures Digits(ValueOf(ds)) == ds
  {
    if |ds| > 1 {
      var init, last := ds[..|ds| - 1], ds[|ds| - 1];
      assert init[0] == ds[0];
      DigitsOfValue(init);
      ValueInLowerBound(init, 10);
      var x := ValueOf(init);
      assert x >= 1;
      var v := ValueOf(ds);
      assert v == x * 10 + last;
      DivModUnique(x, last, 10);
      assert v / 10 == x && v % 10 == last;
      assert Digits(v) == Digits(x) + [last];
      assert ds == init + [last];
    } else {
      assert ds[..|ds| - 1] == [];
      assert ValueIn(ds, 10) == ValueIn([], 10) * 10 + ds[0];
      assert ds == [ds[0]];
    }
  }

  lemma NumDigitsBounds(n: nat)
    requires n >= 1
    ensures Pow10(NumDigits(n) - 1) <= n < Pow10(NumDigits(n))
  {
    DigitsLeading(n);
    ValueOfDigits(n);
    ValueInLowerBound(Digits(n), 10);
    ValueInBound(Digits(n), 10);
  }

  /** `n` has exactly `k` digits when 10^(k-1) <= n < 10^k. */
  lemma NumDigitsOfBounds(n: nat, k: nat)
    requires k >= 1 && Pow10(k - 1) <= n < Pow10(k)
    ensures NumDigits(n) == k
  {
    NumDigitsBounds(n);
    var k' := NumDigits(n);
    if k' < k {
      PowMonotone(10, k', k - 1);
    } else if k' > k {
      PowMonotone(10, k, k' - 1);
    }
  }

  /** Dividing by 10^k keeps the leading digits; the remainder holds the low k digits. */
  lemma DigitsHighLow(n: nat, k: nat)
    requires k < NumDigits(n)
    ensures Digits(n / Pow10(k)) == Digits(n)[..NumDigits(n) - k]
    ensures n % Pow10(k) == ValueOf(Digits(n)[NumDigits(n) - k..])
  {
    var d := Digits(n);
    ValueOfDigits(n);
    ValueInSplit(d, k, 10);
    if n >= 1 {
      DigitsLeading(n);
    }
    if n == 0 {
      assert d == [0];
    } else {
      DigitsOfValue(d[..|d| - k]);
    }
  }

  /** Digits of a value composed from a high part and a k-digit low part. */
  lemma ComposeHighLow(hi: nat, lo: nat, k: nat)
    requires hi >= 1 && lo < Pow10(k)
    ensures NumDigits(hi * Pow10(k) + lo) == NumDigits(hi) + k
  {
    NumDigitsBounds(hi);
    var h := NumDigits(hi);
    var p, low, high := Pow10(k), Pow10(h - 1), Pow10(h);
    var n := hi * p + lo;
    PowAdd(10, h - 1, k);
    PowAdd(10, h, k);
    assert Pow10(h - 1 + k) == low * p;
    assert Pow10(h + k) == high * p;
    MulLe(low, hi, p);
    MulLe(hi + 1, high, p);
    assert (hi + 1) * p == hi * p + p;
    assert low * p <= n < high * p;
    NumDigitsOfBounds(n, h + k);
  }
}
