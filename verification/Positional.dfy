/** Numbers written in a base, most significant digit first. */
module Positional {

  function Pow(b: nat, n: nat): nat {
    if n == 0 then 1 else Pow(b, n - 1) * b
  }

  ghost predicate InBase(b: nat, ds: seq<nat>) {
    forall i :: 0 <= i < |ds| ==> ds[i] < b
  }

  function Value(b: nat, ds: seq<nat>): nat {
    if ds == [] then 0 else Value(b, ds[..|ds| - 1]) * b + ds[|ds| - 1]
  }

  /** The `len` low-order digits of `n`. */
  function Digits(b: nat, n: nat, len: nat): (ds: seq<nat>)
    requires b > 0
    ensures |ds| == len
    decreases len, n
  {
    if len == 0 then [] else Digits(b, n / b, len - 1) + [n % b]
  }

  lemma DigitsInBase(b: nat, n: nat, len: nat)
    requires b > 0
    ensures InBase(b, Digits(b, n, len))
    decreases len
  {
    if len > 0 { DigitsInBase(b, n / b, len - 1); }
  }

  lemma {:induction false} ValueBound(b: nat, ds: seq<nat>)
    requires b > 0 && InBase(b, ds)
    ensures Value(b, ds) < Pow(b, |ds|)
  {
    if ds != [] {
      var front := ds[..|ds| - 1];
      ValueBound(b, front);
      MulStep(Value(b, front), Pow(b, |front|), b, ds[|ds| - 1]);
    }
  }

  lemma MulStep(v: nat, p: nat, b: nat, d: nat)
    requires v < p && d < b
    ensures v * b + d < p * b
  {
    assert (v + 1) * b <= p * b;
    assert (v + 1) * b == v * b + b;
  }

  /** Writing a number that fits and reading it back gives the number. */
  lemma {:induction false} ValueOfDigits(b: nat, n: nat, len: nat)
    requires b > 0 && n < Pow(b, len)
    ensures Value(b, Digits(b, n, len)) == n
    decreases len
  {
    if len > 0 {
      DivBound(n, b, Pow(b, len - 1));
      ValueOfDigits(b, n / b, len - 1);
      ValueMore(b, Digits(b, n / b, len - 1), n % b);
    }
  }

  lemma ValueMore(b: nat, ds: seq<nat>, d: nat)
    ensures Value(b, ds + [d]) == Value(b, ds) * b + d
  {
    assert (ds + [d])[..|ds|] == ds;
  }

  lemma DivBound(n: nat, b: nat, p: nat)
    requires b > 0 && n < p * b
    ensures n / b < p
  {
    var q := n / b;
    assert q >= p ==> q * b >= p * b;
  }

  /** Reading digits and writing the number at the same length gives the digits. */
  lemma {:induction false} DigitsOfValue(b: nat, ds: seq<nat>)
    requires b > 0 && InBase(b, ds)
    ensures Digits(b, Value(b, ds), |ds|) == ds
  {
    if ds != [] {
      var front, last := ds[..|ds| - 1], ds[|ds| - 1];
      DigitsOfValue(b, front);
      DivModOf(Value(b, front), b, last);
    }
  }

  lemma DivModOf(q: nat, b: nat, r: nat)
    requires r < b
    ensures (q * b + r) / b == q && (q * b + r) % b == r
  {
    var n := q * b + r;
    DivisionUnique(q, r, n / b, n % b, b);
  }

  lemma DivisionUnique(q: nat, r: nat, k: nat, t: nat, b: nat)
    requires r < b && t < b && q * b + r == k * b + t
    ensures q == k && r == t
  {
    if q < k {
      MulStep(q, k, b, r);
    } else if k < q {
      MulStep(k, q, b, t);
    }
  }

  /** The value seen from the most significant digit. */
  lemma {:induction false} ValueFromLeft(b: nat, ds: seq<nat>)
    requires ds != []
    ensures Value(b, ds) == ds[0] * Pow(b, |ds| - 1) + Value(b, ds[1..])
  {
    var n := |ds|;
    if n == 1 {
      assert ds[..0] == [];
    } else {
      var front := ds[..n - 1];
      ValueFromLeft(b, front);
      assert front[1..] == ds[1..][..n - 2];
      assert ds[1..][n - 2] == ds[n - 1];
      Distribute(ds[0], Pow(b, n - 2), Value(b, front[1..]), b);
    }
  }

  lemma Distribute(d: nat, p: nat, v: nat, b: nat)
    ensures (d * p + v) * b == d * (p * b) + v * b
  {
  }

  lemma ProductNonNegative(x: nat, y: nat)
    ensures x * y >= 0
  {
  }

  /** Digits of one base rewritten in another with enough places, and back. */
  lemma Rebased(b: nat, c: nat, ds: seq<nat>, len: nat)
    requires b > 0 && c > 0 && InBase(b, ds) && Pow(b, |ds|) <= Pow(c, len)
    ensures Value(c, Digits(c, Value(b, ds), len)) == Value(b, ds) < Pow(b, |ds|)
    ensures Digits(b, Value(c, Digits(c, Value(b, ds), len)), |ds|) == ds
  {
    ValueBound(b, ds);
    ValueOfDigits(c, Value(b, ds), len);
    DigitsOfValue(b, ds);
  }
}
