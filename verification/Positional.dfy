/** Numbers written in a base, most significant digit first: big-endian bytes, and
    tuples of 64-bit words. */
module Positional {

  function Pow(base: nat, k: nat): (p: nat)
    ensures base > 0 ==> p > 0
  {
    if k == 0 then 1 else
      PositiveProduct(base, Pow(base, k - 1));
      base * Pow(base, k - 1)
  }

  lemma PositiveProduct(a: nat, b: nat)
    ensures a > 0 && b > 0 ==> a * b > 0
    ensures a * b >= 0
  {
  }

  ghost predicate InBase(base: nat, ds: seq<int>) {
    forall i | 0 <= i < |ds| :: 0 <= ds[i] < base
  }

  /** The number that the digits write. */
  function Number(base: nat, ds: seq<int>): int {
    if ds == [] then 0 else ds[0] * Pow(base, |ds| - 1) + Number(base, ds[1..])
  }

  /** The lexicographic order, where a proper prefix comes first. */
  predicate DigitsLess(x: seq<int>, y: seq<int>) {
    if y == [] then false
    else if x == [] then true
    else x[0] < y[0] || (x[0] == y[0] && DigitsLess(x[1..], y[1..]))
  }

  lemma {:induction false} Bound(base: nat, ds: seq<int>)
    requires InBase(base, ds) && base > 0
    ensures 0 <= Number(base, ds) < Pow(base, |ds|)
  {
    if ds != [] {
      var p := Pow(base, |ds| - 1);
      Bound(base, ds[1..]);
      DigitBound(base, ds[0], p, Number(base, ds[1..]));
    }
  }

  lemma DigitBound(base: nat, d: int, p: nat, low: int)
    requires 0 <= d < base && 0 <= low < p
    ensures 0 <= d * p + low < base * p
  {
    assert d * p <= (base - 1) * p;
    assert (base - 1) * p + p == base * p;
  }

  /** A larger leading digit outweighs everything behind it. */
  lemma LeadingDigit(p: nat, d: int, d': int, low: int, low': int)
    requires 0 <= low < p && 0 <= low' < p && d < d'
    ensures d * p + low < d' * p + low'
  {
    assert d * p + p == (d + 1) * p;
    assert (d + 1) * p <= d' * p;
  }

  /** Numbers with equally many digits compare as their digits do. */
  lemma {:induction false} OrderIff(base: nat, x: seq<int>, y: seq<int>)
    requires InBase(base, x) && InBase(base, y) && base > 0 && |x| == |y|
    ensures Number(base, x) < Number(base, y) <==> DigitsLess(x, y)
    ensures Number(base, x) == Number(base, y) <==> x == y
  {
    if x != [] {
      var p := Pow(base, |x| - 1);
      OrderIff(base, x[1..], y[1..]);
      Bound(base, x[1..]);
      Bound(base, y[1..]);
      var low, low' := Number(base, x[1..]), Number(base, y[1..]);
      if x[0] < y[0] {
        LeadingDigit(p, x[0], y[0], low, low');
      } else if y[0] < x[0] {
        LeadingDigit(p, y[0], x[0], low', low);
      }
      assert x == [x[0]] + x[1..] && y == [y[0]] + y[1..];
    }
  }

  lemma {:induction false} PowSum(base: nat, j: nat, k: nat)
    ensures Pow(base, j + k) == Pow(base, j) * Pow(base, k)
  {
    if j > 0 {
      PowSum(base, j - 1, k);
      Associate(base, Pow(base, j - 1), Pow(base, k));
    }
  }

  lemma Associate(a: int, b: int, c: int)
    ensures a * b * c == a * (b * c)
  {
  }

  /** Writing one numeral behind another. */
  lemma {:induction false} Concat(base: nat, x: seq<int>, y: seq<int>)
    ensures Number(base, x + y) == Number(base, x) * Pow(base, |y|) + Number(base, y)
  {
    if x == [] {
      assert x + y == y;
    } else {
      assert (x + y)[1..] == x[1..] + y;
      Concat(base, x[1..], y);
      PowSum(base, |x| - 1, |y|);
      Distribute(x[0], Pow(base, |x| - 1), Number(base, x[1..]), Pow(base, |y|));
    }
  }

  lemma Distribute(d: int, p: int, low: int, q: int)
    ensures d * (p * q) + low * q == (d * p + low) * q
  {
    Associate(d, p, q);
  }

  // ----- Reading the digits back -----

  /** The digits of a number without leading zeros. */
  function ToDigits(base: nat, n: nat): (ds: seq<int>)
    requires base > 1
    ensures InBase(base, ds)
    ensures ds != [] ==> ds[0] != 0
  {
    if n == 0 then [] else
      Smaller(base, n);
      ToDigits(base, n / base) + [n % base]
  }

  lemma Smaller(base: nat, n: nat)
    requires base > 1 && n > 0
    ensures n / base < n && 0 <= n % base < base
    ensures n / base == 0 ==> n % base == n
  {
    var q, r := n / base, n % base;
    assert n == base * q + r;
    Doubles(base, q);
  }

  lemma Doubles(base: nat, q: int)
    requires base > 1
    ensures q >= 0 ==> base * q >= 2 * q
    ensures q == 0 ==> base * q == 0
  {
    assert base * q == 2 * q + (base - 2) * q;
  }

  lemma {:induction false} NumberLast(base: nat, ds: seq<int>, d: int)
    ensures Number(base, ds + [d]) == Number(base, ds) * base + d
  {
    Concat(base, ds, [d]);
    assert Pow(base, 1) == base * Pow(base, 0) == base;
    assert Number(base, [d]) == d * Pow(base, 0) + Number(base, []);
  }

  /** Digits without a leading zero are read back as they were. */
  lemma {:induction false} DigitsRoundTrip(base: nat, ds: seq<int>)
    requires base > 1 && InBase(base, ds) && (ds != [] ==> ds[0] != 0)
    ensures Number(base, ds) >= 0 && ToDigits(base, Number(base, ds)) == ds
  {
    Bound(base, ds);
    if ds != [] {
      var front, d := ds[..|ds| - 1], ds[|ds| - 1];
      assert ds == front + [d];
      NumberLast(base, front, d);
      assert front != [] ==> front[0] == ds[0];
      DigitsRoundTrip(base, front);
      Divide(base, Number(base, front), d);
      LeadingPositive(base, ds);
    }
  }

  lemma Divide(base: nat, q: nat, d: int)
    requires 0 <= d < base
    ensures (q * base + d) / base == q && (q * base + d) % base == d
  {
    var n := q * base + d;
    assert n == base * (n / base) + n % base;
    QuotientUnique(base, q, d, n / base, n % base);
  }

  lemma QuotientUnique(base: nat, q: int, d: int, q': int, d': int)
    requires q * base + d == base * q' + d' && 0 <= d < base && 0 <= d' < base
    ensures q == q' && d == d'
  {
    if q < q' {
      LeadingDigit(base, q, q', d, d');
    } else if q' < q {
      LeadingDigit(base, q', q, d', d);
    }
  }

  lemma LeadingPositive(base: nat, ds: seq<int>)
    requires base > 1 && InBase(base, ds) && ds != [] && ds[0] != 0
    ensures Number(base, ds) > 0
  {
    Bound(base, ds[1..]);
    PositiveProduct(ds[0], Pow(base, |ds| - 1));
  }
}
