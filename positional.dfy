/**
 * Positional notation in an arbitrary base: a number written as a sequence of
 * digit values, most significant digit first. Both the decimal strings and the
 * Crockford Base32 strings of the codec are instances of this notation.
 */
module Positional {

  /** base raised to the k-th power. */
  function Pow(base: nat, k: nat): (p: nat)
    ensures base >= 1 ==> p >= 1
  {
    if k == 0 then 1 else base * Pow(base, k - 1)
  }

  /** Every entry of ds is a digit of the given base. */
  predicate AreDigits(ds: seq<nat>, base: nat) {
    forall i :: 0 <= i < |ds| ==> ds[i] < base
  }

  /** The canonical spelling of a number: at least one digit and no leading zero,
      except for the single digit 0 that spells zero. */
  predicate IsCanonical(ds: seq<nat>, base: nat) {
    |ds| > 0 && AreDigits(ds, base) && (ds[0] == 0 ==> |ds| == 1)
  }

  /** The number that ds spells, read most significant digit first. */
  function FromDigits(ds: seq<nat>, base: nat): nat {
    if ds == [] then 0 else FromDigits(ds[..|ds| - 1], base) * base + ds[|ds| - 1]
  }

  /** The digits of n, most significant first: the last digit is n % base, and
      the digits before it are those of n / base; a number below base is one digit. */
  function ToDigits(n: nat, base: nat): (ds: seq<nat>)
    requires base >= 2
    ensures IsCanonical(ds, base)
    ensures ds[0] == 0 <==> n == 0
    decreases n
  {
    if n < base then [n] else QuotientSmaller(n, base); ToDigits(n / base, base) + [n % base]
  }

  lemma MulMonotonic(a: nat, b: nat, c: nat)
    requires b <= c
    ensures a * b <= a * c
  {
    assert a * c == a * b + a * (c - b);
  }

  /** Dividing a number of two or more digits leaves a positive, smaller quotient. */
  lemma QuotientSmaller(n: nat, base: nat)
    requires base >= 2 && n >= base
    ensures 1 <= n / base < n
  {
    var q, r := n / base, n % base;
    assert n == q * base + r;
    MulMonotonic(q, 2, base);
  }

  /** A number below base * p has a quotient below p. */
  lemma QuotientBelow(n: nat, base: nat, p: nat)
    requires base >= 1 && n < base * p
    ensures n / base < p
  {
    var q := n / base;
    assert q * base <= n;
    if q >= p {
      MulMonotonic(base, p, q);
      assert false;
    }
  }

  /** Quotient and remainder are unique. */
  lemma QuotientUnique(q1: nat, r1: nat, q2: nat, r2: nat, base: nat)
    requires r1 < base && r2 < base && q1 * base + r1 == q2 * base + r2
    ensures q1 == q2 && r1 == r2
  {
    if q1 < q2 {
      MulMonotonic(base, q1 + 1, q2);
      assert false;
    } else if q2 < q1 {
      MulMonotonic(base, q2 + 1, q1);
      assert false;
    }
  }

  lemma DivModOfMulAdd(q: nat, r: nat, base: nat)
    requires r < base
    ensures (q * base + r) / base == q && (q * base + r) % base == r
  {
    var n := q * base + r;
    QuotientUnique(n / base, n % base, q, r, base);
  }

  lemma FromDigitsAppend(ds: seq<nat>, d: nat, base: nat)
    ensures FromDigits(ds + [d], base) == FromDigits(ds, base) * base + d
  {
    assert (ds + [d])[..|ds|] == ds;
  }

  /** Reading the digits of n gives back n. */
  lemma {:induction false} FromToDigits(n: nat, base: nat)
    requires base >= 2
    ensures FromDigits(ToDigits(n, base), base) == n
    decreases n
  {
    if n >= base {
      var q, r := n / base, n % base;
      assert n == q * base + r;
      QuotientSmaller(n, base);
      FromToDigits(q, base);
      FromDigitsAppend(ToDigits(q, base), r, base);
    }
  }

  /** A number whose leading digit is not zero is positive. */
  lemma {:induction false} FromDigitsPositive(ds: seq<nat>, base: nat)
    requires base >= 1 && |ds| > 0 && ds[0] != 0
    ensures FromDigits(ds, base) > 0
  {
    if |ds| > 1 {
      FromDigitsPositive(ds[..|ds| - 1], base);
    }
  }

  /** Writing the number of a canonical spelling gives back that spelling. */
  lemma {:induction false} ToFromDigits(ds: seq<nat>, base: nat)
    requires base >= 2 && IsCanonical(ds, base)
    ensures ToDigits(FromDigits(ds, base), base) == ds
    decreases |ds|
  {
    if |ds| > 1 {
      var prefix, last := ds[..|ds| - 1], ds[|ds| - 1];
      assert IsCanonical(prefix, base);
      FromDigitsPositive(prefix, base);
      var q := FromDigits(prefix, base);
      var n := FromDigits(ds, base);
      assert n == q * base + last;
      assert n >= base;
      DivModOfMulAdd(q, last, base);
      ToFromDigits(prefix, base);
      assert prefix + [last] == ds;
    }
  }

  /** k digits spell a number below base^k. */
  lemma {:induction false} FromDigitsBound(ds: seq<nat>, base: nat)
    requires AreDigits(ds, base)
    ensures FromDigits(ds, base) < Pow(base, |ds|)
    decreases |ds|
  {
    if ds != [] {
      var prefix := ds[..|ds| - 1];
      FromDigitsBound(prefix, base);
      var q := FromDigits(prefix, base);
      var p := Pow(base, |prefix|);
      var last := ds[|ds| - 1];
      assert last < base;
      MulMonotonic(base, q + 1, p);
      assert base * (q + 1) == q * base + base;
      assert FromDigits(ds, base) == q * base + last;
      assert Pow(base, |ds|) == base * p;
    }
  }

  /** A number below base^k has at most k digits. */
  lemma {:induction false} ToDigitsLength(n: nat, base: nat, k: nat)
    requires base >= 2 && k >= 1 && n < Pow(base, k)
    ensures |ToDigits(n, base)| <= k
    decreases k
  {
    if n >= base {
      var p := Pow(base, k - 1);
      if k == 1 {
        assert false;
      }
      QuotientBelow(n, base, p);
      ToDigitsLength(n / base, base, k - 1);
    }
  }

  /** Pow is monotonic in the exponent. */
  lemma {:induction false} PowMonotonic(base: nat, j: nat, k: nat)
    requires base >= 1 && j <= k
    ensures Pow(base, j) <= Pow(base, k)
    decreases k
  {
    if j < k {
      PowMonotonic(base, j, k - 1);
      MulMonotonic(Pow(base, k - 1), 1, base);
      assert Pow(base, k) == base * Pow(base, k - 1);
    }
  }

  /** Folding digits into an accumulator, left to right (acc := acc * base + d),
      continues the number already read: it equals reading the whole spelling. */
  function FoldDigits(acc: nat, ds: seq<nat>, base: nat): nat
    decreases |ds|
  {
    if ds == [] then acc else FoldDigits(acc * base + ds[0], ds[1..], base)
  }

  lemma {:induction false} FoldDigitsContinues(prefix: seq<nat>, ds: seq<nat>, base: nat)
    ensures FoldDigits(FromDigits(prefix, base), ds, base) == FromDigits(prefix + ds, base)
    decreases |ds|
  {
    if ds == [] {
      assert prefix + ds == prefix;
    } else {
      var next := prefix + [ds[0]];
      assert next[..|next| - 1] == prefix;
      assert FromDigits(next, base) == FromDigits(prefix, base) * base + ds[0];
      assert FoldDigits(FromDigits(prefix, base), ds, base)
          == FoldDigits(FromDigits(next, base), ds[1..], base);
      FoldDigitsContinues(next, ds[1..], base);
      assert next + ds[1..] == prefix + ds;
    }
  }
}
