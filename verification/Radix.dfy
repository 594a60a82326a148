/** Positional numerals, most significant digit first: the arithmetic behind base58
    and behind reading a byte string as one big integer. */
module Radix {

  predicate Digits(base: nat, ds: seq<int>) {
    forall i :: 0 <= i < |ds| ==> 0 <= ds[i] < base
  }

  function FromDigits(base: nat, ds: seq<int>): int {
    if ds == [] then 0 else FromDigits(base, ds[..|ds| - 1]) * base + ds[|ds| - 1]
  }

  function ToDigits(base: nat, n: nat): seq<int>
    requires base >= 2
    decreases n
  {
    if n == 0 then []
    else QuotientSmaller(n, base); ToDigits(base, n / base) + [n % base]
  }

  lemma QuotientSmaller(n: nat, base: nat)
    requires n > 0 && base >= 2
    ensures 0 <= n / base < n
  {
  }

  function Zeros(n: nat): seq<int> {
    seq(n, _ => 0)
  }

  function LeadingZeros(ds: seq<int>): nat {
    if ds == [] || ds[0] != 0 then 0 else 1 + LeadingZeros(ds[1..])
  }

  function Pow(base: nat, n: nat): nat {
    if n == 0 then 1 else base * Pow(base, n - 1)
  }

  lemma {:induction false} FromDigitsNonNegative(base: nat, ds: seq<int>)
    requires Digits(base, ds)
    ensures FromDigits(base, ds) >= 0
  {
    if ds != [] { FromDigitsNonNegative(base, ds[..|ds| - 1]); }
  }

  lemma FromDigitsSnoc(base: nat, ds: seq<int>, d: int)
    ensures FromDigits(base, ds + [d]) == FromDigits(base, ds) * base + d
  {
    assert (ds + [d])[..|ds|] == ds;
  }

  lemma {:induction false} ToDigitsAreDigits(base: nat, n: nat)
    requires base >= 2
    ensures Digits(base, ToDigits(base, n))
    ensures n > 0 ==> ToDigits(base, n) != [] && ToDigits(base, n)[0] != 0
    decreases n
  {
    if n > 0 {
      QuotientSmaller(n, base);
      ToDigitsAreDigits(base, n / base);
      if n / base == 0 { assert n % base == n; }
    }
  }

  /** Writing a number down and reading it back. */
  lemma {:induction false} ReadsBack(base: nat, n: nat)
    requires base >= 2
    ensures FromDigits(base, ToDigits(base, n)) == n
    decreases n
  {
    if n > 0 {
      QuotientSmaller(n, base);
      ReadsBack(base, n / base);
      FromDigitsSnoc(base, ToDigits(base, n / base), n % base);
    }
  }

  lemma ZeroProduct(a: int, b: nat, d: int)
    requires a >= 0 && 0 <= d < b && a * b + d == 0
    ensures a == 0 && d == 0
  {
    assert a > 0 ==> a * b >= b;
  }

  lemma AtLeastOne(m: int, d: int)
    requires m >= 0
    ensures d >= 1 ==> m * d >= m
    ensures d <= -1 ==> m * d <= -m
  {
  }

  lemma {:induction false} QuotientIs(n: nat, m: nat, s: int, r: int)
    requires n == m * s + r && 0 <= r < m
    ensures n / m == s && n % m == r
  {
    var q, t := n / m, n % m;
    assert n == m * q + t;
    assert m * (s - q) == m * s - m * q == t - r;
    AtLeastOne(m, s - q);
  }

  lemma {:induction false} DivideBack(a: nat, b: nat, d: int)
    requires 0 <= d < b
    ensures a * b + d >= 0 && (a * b + d) / b == a && (a * b + d) % b == d
  {
    assert a * b == b * a >= 0;
    QuotientIs(a * b + d, b, a, d);
  }

  lemma {:induction false} ZeroMeansZeros(base: nat, ds: seq<int>)
    requires Digits(base, ds) && FromDigits(base, ds) == 0
    ensures ds == Zeros(|ds|)
  {
    if ds != [] {
      var front := ds[..|ds| - 1];
      FromDigitsNonNegative(base, front);
      ZeroProduct(FromDigits(base, front), base, ds[|ds| - 1]);
      ZeroMeansZeros(base, front);
      assert ds == front + [0];
    }
  }

  lemma {:induction false} LeadingZerosOf(k: nat, ds: seq<int>)
    requires ds != [] ==> ds[0] != 0
    ensures LeadingZeros(Zeros(k) + ds) == k
  {
    if k == 0 {
      assert Zeros(0) + ds == ds;
    } else {
      LeadingZerosOf(k - 1, ds);
      assert (Zeros(k) + ds)[1..] == Zeros(k - 1) + ds;
    }
  }

  lemma {:induction false} SplitLeadingZeros(ds: seq<int>)
    ensures LeadingZeros(ds) <= |ds|
    ensures ds == Zeros(LeadingZeros(ds)) + ds[LeadingZeros(ds)..]
    ensures LeadingZeros(ds) < |ds| ==> ds[LeadingZeros(ds)] != 0
  {
    if ds != [] && ds[0] == 0 {
      SplitLeadingZeros(ds[1..]);
      assert Zeros(LeadingZeros(ds)) == [0] + Zeros(LeadingZeros(ds[1..]));
    } else {
      assert Zeros(0) + ds == ds;
    }
  }

  lemma {:induction false} LeadingZerosAreWorthless(base: nat, k: nat, ds: seq<int>)
    ensures FromDigits(base, Zeros(k) + ds) == FromDigits(base, ds)
  {
    if ds == [] {
      assert Zeros(k) + ds == Zeros(k);
      AllZeros(base, k);
    } else {
      LeadingZerosAreWorthless(base, k, ds[..|ds| - 1]);
      var whole := Zeros(k) + ds;
      assert whole[..|whole| - 1] == Zeros(k) + ds[..|ds| - 1];
    }
  }

  lemma {:induction false} AllZeros(base: nat, k: nat)
    ensures FromDigits(base, Zeros(k)) == 0
  {
    if k > 0 {
      AllZeros(base, k - 1);
      assert Zeros(k)[..k - 1] == Zeros(k - 1);
    }
  }

  /** Reading a numeral and writing the number down gives the numeral back, when it
      does not start with a zero. */
  lemma {:induction false} WritesBack(base: nat, ds: seq<int>)
    requires base >= 2 && Digits(base, ds)
    requires ds != [] ==> ds[0] != 0
    ensures FromDigits(base, ds) >= 0
    ensures ToDigits(base, FromDigits(base, ds)) == ds
  {
    FromDigitsNonNegative(base, ds);
    if ds != [] {
      var front, last := ds[..|ds| - 1], ds[|ds| - 1];
      FromDigitsNonNegative(base, front);
      WritesBack(base, front);
      if FromDigits(base, ds) == 0 {
        ZeroMeansZeros(base, ds);
        assert false;
      }
      DivideBack(FromDigits(base, front), base, last);
      assert ds == front + [last];
    }
  }

  /** In general: all of the numeral except its leading zeros. */
  lemma {:induction false} WritesBackAfterZeros(base: nat, ds: seq<int>)
    requires base >= 2 && Digits(base, ds)
    ensures FromDigits(base, ds) >= 0
    ensures Zeros(LeadingZeros(ds)) + ToDigits(base, FromDigits(base, ds)) == ds
  {
    SplitLeadingZeros(ds);
    var rest := ds[LeadingZeros(ds)..];
    LeadingZerosAreWorthless(base, LeadingZeros(ds), rest);
    WritesBack(base, rest);
  }

  // ---- Sizes ------------------------------------------------------------------------

  lemma {:induction false} FromDigitsBound(base: nat, ds: seq<int>)
    requires Digits(base, ds)
    ensures 0 <= FromDigits(base, ds) < Pow(base, |ds|)
  {
    if ds != [] {
      var front, last := ds[..|ds| - 1], ds[|ds| - 1];
      FromDigitsBound(base, front);
      StepBound(FromDigits(base, front), Pow(base, |front|), base, last);
    }
  }

  lemma {:induction false} StepBound(a: int, p: nat, base: nat, d: int)
    requires 0 <= a < p && 0 <= d < base
    ensures 0 <= a * base + d < base * p
  {
    assert a * base <= (p - 1) * base;
    assert (p - 1) * base == base * p - base;
  }

  lemma {:induction false} FromDigitsConcat(base: nat, a: seq<int>, b: seq<int>)
    ensures FromDigits(base, a + b) == FromDigits(base, a) * Pow(base, |b|) + FromDigits(base, b)
  {
    if b == [] {
      assert a + b == a;
    } else {
      var front, last := b[..|b| - 1], b[|b| - 1];
      FromDigitsConcat(base, a, front);
      FromDigitsSnoc(base, a + front, last);
      FromDigitsSnoc(base, front, last);
      assert a + b == a + front + [last] && b == front + [last];
      Regroup(FromDigits(base, a), Pow(base, |front|), FromDigits(base, front), base);
    }
  }

  lemma Regroup(x: int, p: int, y: int, base: int)
    ensures (x * p + y) * base == x * (base * p) + y * base
  {
    assert (x * p) * base == x * (p * base) == x * (base * p);
  }

  lemma {:induction false} DivideProduct(n: nat, base: nat, p: nat)
    requires base >= 1 && p >= 1
    ensures base * p >= 1 && (n / base) / p == n / (base * p)
  {
    var q, t := n / base, n % base;
    var s, r := q / p, q % p;
    assert base * p >= 1 by { AtLeastOne(base, p); }
    NestedQuotient(n, base, p, q, t, s, r);
    QuotientIs(n, base * p, s, base * r + t);
  }

  lemma {:induction false} NestedQuotient(n: nat, base: nat, p: nat, q: nat, t: nat, s: nat, r: nat)
    requires n == base * q + t && t < base && q == p * s + r && r < p
    ensures n == base * p * s + (base * r + t) && base * r + t < base * p
  {
    calc {
      base * q;
      base * (p * s + r);
      base * (p * s) + base * r;
      base * p * s + base * r;
    }
    AtLeastOne(base, p - r);
    assert base * (p - r) == base * p - base * r;
  }

  /** The last `k` digits of a number cover its remainder; what stands before them
      is the quotient. */
  lemma {:induction false} ToDigitsSplit(base: nat, n: nat, k: nat)
    requires base >= 2 && n > 0
    requires Pow(base, k) >= 1 && n / Pow(base, k) > 0
    ensures |ToDigits(base, n)| == |ToDigits(base, n / Pow(base, k))| + k
    ensures ToDigits(base, n / Pow(base, k)) <= ToDigits(base, n)
    decreases k
  {
    if k > 0 {
      PowPositive(base, k - 1);
      DivideProduct(n, base, Pow(base, k - 1));
      QuotientSmaller(n, base);
      ToDigitsSplit(base, n / base, k - 1);
    }
  }

  lemma {:induction false} PowPositive(base: nat, k: nat)
    requires base >= 1
    ensures Pow(base, k) >= 1
  {
    if k > 0 { PowPositive(base, k - 1); }
  }

  lemma {:induction false} PowAdd(base: nat, a: nat, b: nat)
    ensures Pow(base, a + b) == Pow(base, a) * Pow(base, b)
  {
    if a > 0 {
      PowAdd(base, a - 1, b);
      assert base * (Pow(base, a - 1) * Pow(base, b)) == (base * Pow(base, a - 1)) * Pow(base, b);
    }
  }
}
