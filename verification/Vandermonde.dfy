/**
  The Vandermonde argument over any field of characteristic two: n weights at n distinct points
  whose first n power sums all vanish are all zero. Its consequences for polynomials: a polynomial
  with n coefficients is determined by its values at n consecutive powers of an element whose
  powers are distinct, and one that vanishes at n such powers cannot have fewer than n + 1
  nonzero coefficients.
 */
module Vandermonde {
  import opened FieldTheory

  /** The i-th power sum of the weights cs at the points xs. */
  ghost function PowerSum<F>(k: Field<F>, cs: seq<F>, xs: seq<F>, i: nat): F
    requires |cs| == |xs|
  {
    if |cs| == 0 then k.zero
    else k.add(k.mul(cs[0], Pow(k, xs[0], i)), PowerSum(k, cs[1..], xs[1..], i))
  }

  /** Every weight multiplied by its point's distance to y. */
  ghost function Twist<F>(k: Field<F>, cs: seq<F>, xs: seq<F>, y: F): seq<F>
    requires |cs| == |xs|
  {
    seq(|cs|, j requires 0 <= j < |cs| => k.mul(cs[j], k.add(xs[j], y)))
  }

  lemma TwistTerm<F(!new)>(k: Field<F>, c: F, x: F, y: F, i: nat)
    requires IsField(k)
    ensures k.mul(k.mul(c, k.add(x, y)), Pow(k, x, i))
         == k.add(k.mul(c, Pow(k, x, i + 1)), k.mul(y, k.mul(c, Pow(k, x, i))))
  {
    var p := Pow(k, x, i);
    Distrib(k, c, x, y);
    Distrib(k, p, k.mul(c, x), k.mul(c, y));
    MulSwap(k, c, x, p);
    MulAssoc(k, c, p, x);
    MulSwap(k, c, y, p);
    MulComm(k, k.mul(c, p), y);
  }

  lemma {:induction false} TwistSum<F(!new)>(k: Field<F>, cs: seq<F>, xs: seq<F>, y: F, i: nat)
    requires IsField(k) && |cs| == |xs|
    ensures PowerSum(k, Twist(k, cs, xs, y), xs, i)
         == k.add(PowerSum(k, cs, xs, i + 1), k.mul(y, PowerSum(k, cs, xs, i)))
  {
    if |cs| == 0 {
      MulZero(k, y);
      AddZero(k, k.zero);
    } else {
      var cs', xs' := cs[1..], xs[1..];
      assert Twist(k, cs, xs, y)[1..] == Twist(k, cs', xs', y);
      TwistSum(k, cs', xs', y, i);
      TwistTerm(k, cs[0], xs[0], y, i);
      var a, b := k.mul(cs[0], Pow(k, xs[0], i + 1)), k.mul(cs[0], Pow(k, xs[0], i));
      Distrib(k, y, b, PowerSum(k, cs', xs', i));
      AddSwap(k, a, k.mul(y, b), PowerSum(k, cs', xs', i + 1), k.mul(y, PowerSum(k, cs', xs', i)));
    }
  }

  ghost predicate Distinct<F>(xs: seq<F>) {
    forall i, j :: 0 <= i < j < |xs| ==> xs[i] != xs[j]
  }

  ghost predicate AllZero<F>(k: Field<F>, cs: seq<F>) {
    forall j :: 0 <= j < |cs| ==> cs[j] == k.zero
  }

  lemma {:induction false} PowerSumOfZeros<F(!new)>(k: Field<F>, cs: seq<F>, xs: seq<F>, i: nat)
    requires IsField(k) && |cs| == |xs| && AllZero(k, cs)
    ensures PowerSum(k, cs, xs, i) == k.zero
  {
    if |cs| > 0 {
      PowerSumOfZeros(k, cs[1..], xs[1..], i);
      MulZero(k, Pow(k, xs[0], i));
      AddZero(k, k.zero);
    }
  }

  /** Dropping a zero weight changes no power sum. */
  lemma {:induction false} PowerSumDrop<F(!new)>(k: Field<F>, cs: seq<F>, xs: seq<F>, z: nat, i: nat)
    requires IsField(k) && |cs| == |xs| && z < |cs| && cs[z] == k.zero
    ensures PowerSum(k, cs[..z] + cs[z + 1..], xs[..z] + xs[z + 1..], i) == PowerSum(k, cs, xs, i)
  {
    var ds, ys := cs[..z] + cs[z + 1..], xs[..z] + xs[z + 1..];
    if z == 0 {
      assert ds == cs[1..] && ys == xs[1..];
      MulZero(k, Pow(k, xs[0], i));
      AddZero(k, PowerSum(k, cs[1..], xs[1..], i));
    } else {
      assert ds[1..] == cs[1..][..z - 1] + cs[1..][z..];
      assert ys[1..] == xs[1..][..z - 1] + xs[1..][z..];
      PowerSumDrop(k, cs[1..], xs[1..], z - 1, i);
    }
  }

  ghost predicate Vanishes<F>(k: Field<F>, cs: seq<F>, xs: seq<F>)
    requires |cs| == |xs|
  {
    forall i: nat :: i < |cs| ==> PowerSum(k, cs, xs, i) == k.zero
  }

  /** Weights at distinct points with as many vanishing power sums are all zero. */
  lemma {:induction false} VandermondeZero<F(!new)>(k: Field<F>, cs: seq<F>, xs: seq<F>)
    requires IsField(k) && |cs| == |xs| && Distinct(xs) && Vanishes(k, cs, xs)
    ensures AllZero(k, cs)
    decreases |cs|
  {
    if |cs| > 0 {
      var y, xs' := xs[0], xs[1..];
      var ts := Twist(k, cs, xs, y);
      AddSelf(k, y);
      MulZero(k, cs[0]);
      forall i: nat | i < |xs'|
        ensures PowerSum(k, ts[1..], xs', i) == k.zero
      {
        TwistSum(k, cs, xs, y, i);
        assert PowerSum(k, cs, xs, i) == k.zero && PowerSum(k, cs, xs, i + 1) == k.zero;
        MulZero(k, y);
        AddZero(k, k.zero);
        PowerSumDrop(k, ts, xs, 0, i);
        assert ts[..0] + ts[1..] == ts[1..] && xs[..0] + xs[1..] == xs';
      }
      VandermondeZero(k, ts[1..], xs');
      forall j | 1 <= j < |cs|
        ensures cs[j] == k.zero
      {
        assert ts[1..][j - 1] == k.mul(cs[j], k.add(xs[j], y));
        NoZeroDivisor(k, cs[j], k.add(xs[j], y));
        if k.add(xs[j], y) == k.zero {
          AddCancel(k, xs[j], y);
        }
      }
      PowerSumOfZeros(k, cs[1..], xs', 0);
      assert PowerSum(k, cs, xs, 0) == k.zero;
      MulOne(k, cs[0]);
      AddZero(k, cs[0]);
    }
  }

  // ---------- consequences for polynomials ----------

  /** The powers a^(n-1), ..., a, 1 that the coefficients of a polynomial stand for. */
  ghost function Points<F>(k: Field<F>, a: F, n: nat): seq<F> {
    seq(n, j requires 0 <= j < n => Pow(k, a, n - 1 - j))
  }

  lemma {:induction false} EvalIsPowerSum<F(!new)>(k: Field<F>, p: seq<F>, a: F, i: nat)
    requires IsField(k)
    ensures Eval(k, p, Pow(k, a, i)) == PowerSum(k, p, Points(k, a, |p|), i)
  {
    if |p| > 0 {
      var n := |p| - 1;
      assert Points(k, a, n + 1)[1..] == Points(k, a, n);
      EvalIsPowerSum(k, p[1..], a, i);
      EvalCons(k, p, Pow(k, a, i));
      PowMul(k, a, i, n);
      PowMul(k, a, n, i);
      assert i * n == n * i;
    }
  }

  ghost predicate RootsUpTo<F>(k: Field<F>, p: seq<F>, a: F, n: nat) {
    forall i: nat :: i < n ==> Eval(k, p, Pow(k, a, i)) == k.zero
  }

  /** A polynomial with no more coefficients than it has consecutive roots is zero. */
  lemma TooManyRoots<F(!new)>(k: Field<F>, p: seq<F>, a: F, n: nat)
    requires IsField(k) && |p| <= n && Distinct(Points(k, a, |p|)) && RootsUpTo(k, p, a, n)
    ensures AllZero(k, p)
  {
    forall i: nat | i < |p|
      ensures PowerSum(k, p, Points(k, a, |p|), i) == k.zero
    {
      EvalIsPowerSum(k, p, a, i);
    }
    VandermondeZero(k, p, Points(k, a, |p|));
  }

  /** A nonzero polynomial with n + 1 coefficients and n consecutive roots has no zero coefficient. */
  lemma NoZeroCoefficient<F(!new)>(k: Field<F>, p: seq<F>, a: F, n: nat)
    requires IsField(k) && |p| == n + 1 && Distinct(Points(k, a, n + 1)) && RootsUpTo(k, p, a, n)
    requires !AllZero(k, p)
    ensures forall j :: 0 <= j < |p| ==> p[j] != k.zero
  {
    forall z | 0 <= z < |p|
      ensures p[z] != k.zero
    {
      if p[z] == k.zero {
        var xs := Points(k, a, n + 1);
        var cs, ys := p[..z] + p[z + 1..], xs[..z] + xs[z + 1..];
        forall i: nat | i < n
          ensures PowerSum(k, cs, ys, i) == k.zero
        {
          EvalIsPowerSum(k, p, a, i);
          PowerSumDrop(k, p, xs, z, i);
        }
        VandermondeZero(k, cs, ys);
        assert AllZero(k, p) by {
          forall j | 0 <= j < |p|
            ensures p[j] == k.zero
          {
            if j < z {
              assert cs[j] == p[j];
            } else if j > z {
              assert cs[j - 1] == p[j];
            }
          }
        }
      }
    }
  }

  /** Multiplying by (x - a^n) adds the root a^n. */
  lemma RootsOfProduct<F(!new)>(k: Field<F>, g: seq<F>, a: F, n: nat)
    requires IsField(k) && RootsUpTo(k, g, a, n)
    ensures RootsUpTo(k, Product(k, g, [k.one, Pow(k, a, n)]), a, n + 1)
  {
    var r := Pow(k, a, n);
    forall i: nat | i < n + 1
      ensures Eval(k, Product(k, g, [k.one, r]), Pow(k, a, i)) == k.zero
    {
      var x := Pow(k, a, i);
      EvalProduct(k, g, [k.one, r], x);
      EvalLinear(k, r, x);
      if i < n {
        MulZero(k, k.add(x, r));
      } else {
        AddSelf(k, r);
        MulZero(k, Eval(k, g, x));
      }
    }
  }

  /** The product of (x - a^i) for i below n. */
  ghost function Generator<F>(k: Field<F>, a: F, n: nat): (g: seq<F>)
    ensures |g| == n + 1
  {
    if n == 0 then [k.one] else Product(k, Generator(k, a, n - 1), [k.one, Pow(k, a, n - 1)])
  }

  lemma {:induction false} GeneratorRoots<F(!new)>(k: Field<F>, a: F, n: nat)
    requires IsField(k)
    ensures RootsUpTo(k, Generator(k, a, n), a, n)
  {
    if n > 0 {
      GeneratorRoots(k, a, n - 1);
      RootsOfProduct(k, Generator(k, a, n - 1), a, n - 1);
    }
  }

  lemma {:induction false} GeneratorMonic<F(!new)>(k: Field<F>, a: F, n: nat)
    requires IsField(k)
    ensures Generator(k, a, n)[0] == k.one
  {
    if n > 0 {
      GeneratorMonic(k, a, n - 1);
      ProductLead(k, Generator(k, a, n - 1), [k.one, Pow(k, a, n - 1)]);
      MulOne(k, k.one);
    }
  }

  /** While the powers a^0 .. a^n are distinct, the generator of degree n has no zero coefficient. */
  lemma GeneratorNonzero<F(!new)>(k: Field<F>, a: F, n: nat)
    requires IsField(k) && Distinct(Points(k, a, n + 1))
    ensures forall j :: 0 <= j <= n ==> Generator(k, a, n)[j] != k.zero
  {
    var g := Generator(k, a, n);
    GeneratorRoots(k, a, n);
    GeneratorMonic(k, a, n);
    assert g[0] == k.one;
    NoZeroCoefficient(k, g, a, n);
  }

  lemma EvalSame<F(!new)>(k: Field<F>, p: seq<F>, q: seq<F>, x: F)
    requires IsField(k) && |p| == |q| && Eval(k, p, x) == Eval(k, q, x)
    ensures Eval(k, AddPoly(k, p, q), x) == k.zero
  {
    EvalAdd(k, p, q, x);
    AddSelf(k, Eval(k, p, x));
  }

  lemma SumIsZero<F(!new)>(k: Field<F>, p: seq<F>, q: seq<F>)
    requires IsField(k) && |p| == |q| && AllZero(k, AddPoly(k, p, q))
    ensures p == q
  {
    forall j | 0 <= j < |p|
      ensures p[j] == q[j]
    {
      assert AddPoly(k, p, q)[j] == k.zero;
      AddCancel(k, p[j], q[j]);
    }
  }

  /** A polynomial that starts with zero and has as many roots as its other coefficients is zero. */
  lemma TooManyRootsTail<F(!new)>(k: Field<F>, d: seq<F>, a: F, n: nat)
    requires IsField(k) && |d| == n + 1 && d[0] == k.zero && Distinct(Points(k, a, n)) && RootsUpTo(k, d, a, n)
    ensures AllZero(k, d)
  {
    var t := d[1..];
    assert d == Zeros(k, 1) + t;
    forall i: nat | i < n
      ensures Eval(k, t, Pow(k, a, i)) == k.zero
    {
      EvalLeadingZeros(k, 1, t, Pow(k, a, i));
    }
    TooManyRoots(k, t, a, n);
    forall j | 0 <= j < |d|
      ensures d[j] == k.zero
    {
      if j > 0 {
        assert t[j - 1] == k.zero;
      }
    }
  }

  /** When a^n closes the cycle of distinct powers, the generator of degree n is x^n - 1. */
  lemma GeneratorOfCycle<F(!new)>(k: Field<F>, a: F, n: nat)
    requires IsField(k) && n > 0 && Distinct(Points(k, a, n)) && Pow(k, a, n) == k.one
    ensures Generator(k, a, n) == [k.one] + Zeros(k, n - 1) + [k.one]
  {
    var g, h := Generator(k, a, n), [k.one] + Zeros(k, n - 1) + [k.one];
    GeneratorRoots(k, a, n);
    GeneratorMonic(k, a, n);
    AgreeOnCycle(k, g, h, a, n);
  }

  lemma AgreeOnCycle<F(!new)>(k: Field<F>, g: seq<F>, h: seq<F>, a: F, n: nat)
    requires IsField(k) && n > 0 && Distinct(Points(k, a, n)) && Pow(k, a, n) == k.one
    requires |g| == n + 1 && g[0] == k.one && RootsUpTo(k, g, a, n)
    requires h == [k.one] + Zeros(k, n - 1) + [k.one]
    ensures g == h
  {
    forall i: nat | i < n
      ensures Eval(k, AddPoly(k, g, h), Pow(k, a, i)) == k.zero
    {
      CycleRoot(k, a, n, i);
      EvalSame(k, g, h, Pow(k, a, i));
    }
    AddSelf(k, k.one);
    TooManyRootsTail(k, AddPoly(k, g, h), a, n);
    SumIsZero(k, g, h);
  }

  lemma CycleRoot<F(!new)>(k: Field<F>, a: F, n: nat, i: nat)
    requires IsField(k) && n > 0 && Pow(k, a, n) == k.one
    ensures Eval(k, [k.one] + Zeros(k, n - 1) + [k.one], Pow(k, a, i)) == k.zero
  {
    var x := Pow(k, a, i);
    var z := [k.one] + Zeros(k, n - 1);
    EvalConcat(k, z, [k.one], x);
    EvalTrailingZeros(k, [k.one], n - 1, x);
    EvalSingle(k, k.one, x);
    MulOne(k, Pow(k, x, n - 1));
    assert Pow(k, x, 1) == k.mul(k.one, x);
    MulOne(k, x);
    PowMul(k, a, i, n);
    PowMul(k, a, n, i);
    assert i * n == n * i;
    PowOne(k, i);
    AddSelf(k, k.one);
  }

  lemma {:induction false} PowOne<F(!new)>(k: Field<F>, i: nat)
    requires IsField(k)
    ensures Pow(k, k.one, i) == k.one
  {
    if i > 0 {
      PowOne(k, i - 1);
      MulOne(k, k.one);
    }
  }

  /** The check symbols that make a word vanish at n distinct powers are unique. */
  lemma CheckSymbolsUnique<F(!new)>(k: Field<F>, data: seq<F>, r: seq<F>, s: seq<F>, a: F)
    requires IsField(k) && |r| == |s| && Distinct(Points(k, a, |r|))
    requires RootsUpTo(k, data + r, a, |r|) && RootsUpTo(k, data + s, a, |r|)
    ensures r == s
  {
    var d := AddPoly(k, r, s);
    forall i: nat | i < |r|
      ensures Eval(k, d, Pow(k, a, i)) == k.zero
    {
      var x := Pow(k, a, i);
      EvalConcat(k, data, r, x);
      EvalConcat(k, data, s, x);
      var e := k.mul(Eval(k, data, x), Pow(k, x, |r|));
      AddCancel(k, e, Eval(k, r, x));
      AddCancel(k, e, Eval(k, s, x));
      EvalSame(k, r, s, x);
    }
    TooManyRoots(k, d, a, |r|);
    SumIsZero(k, r, s);
  }
}
