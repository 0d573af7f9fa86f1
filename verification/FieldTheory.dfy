/**
  Fields of characteristic two and polynomials over them, for any carrier. The field laws are
  stated once, under a trigger that only the lemmas below mention, so that a proof uses exactly
  the laws it names. Polynomials are coefficient sequences, highest power first, as in the
  QR encoder.
 */
module FieldTheory {

  datatype Field<!F> = Field(zero: F, one: F, add: (F, F) -> F, mul: (F, F) -> F)

  predicate Pick<F>(a: F, b: F, c: F) { true }

  ghost predicate AddLaws<F>(k: Field<F>, a: F, b: F, c: F) {
    && k.add(a, b) == k.add(b, a)
    && k.add(k.add(a, b), c) == k.add(a, k.add(b, c))
    && k.add(a, k.zero) == a
    && k.add(a, a) == k.zero
  }

  ghost predicate MulLaws<F>(k: Field<F>, a: F, b: F, c: F) {
    && k.mul(a, b) == k.mul(b, a)
    && k.mul(k.mul(a, b), c) == k.mul(a, k.mul(b, c))
    && k.mul(a, k.one) == a
    && k.mul(a, k.zero) == k.zero
    && (k.mul(a, b) == k.zero ==> a == k.zero || b == k.zero)
  }

  ghost predicate FieldLaws<F>(k: Field<F>, a: F, b: F, c: F) {
    && AddLaws(k, a, b, c)
    && MulLaws(k, a, b, c)
    && k.mul(a, k.add(b, c)) == k.add(k.mul(a, b), k.mul(a, c))
  }

  ghost predicate IsField<F(!new)>(k: Field<F>) {
    && k.zero != k.one
    && forall a: F, b: F, c: F {:trigger Pick(a, b, c)} :: FieldLaws(k, a, b, c)
  }

  lemma AddComm<F(!new)>(k: Field<F>, a: F, b: F)
    requires IsField(k)
    ensures k.add(a, b) == k.add(b, a)
  {
    assert Pick(a, b, a);
  }

  lemma AddAssoc<F(!new)>(k: Field<F>, a: F, b: F, c: F)
    requires IsField(k)
    ensures k.add(k.add(a, b), c) == k.add(a, k.add(b, c))
  {
    assert Pick(a, b, c);
  }

  lemma AddZero<F(!new)>(k: Field<F>, a: F)
    requires IsField(k)
    ensures k.add(a, k.zero) == a && k.add(k.zero, a) == a
  {
    assert Pick(a, k.zero, a);
  }

  lemma AddSelf<F(!new)>(k: Field<F>, a: F)
    requires IsField(k)
    ensures k.add(a, a) == k.zero
  {
    assert Pick(a, a, a);
  }

  lemma MulComm<F(!new)>(k: Field<F>, a: F, b: F)
    requires IsField(k)
    ensures k.mul(a, b) == k.mul(b, a)
  {
    assert Pick(a, b, a);
  }

  lemma MulAssoc<F(!new)>(k: Field<F>, a: F, b: F, c: F)
    requires IsField(k)
    ensures k.mul(k.mul(a, b), c) == k.mul(a, k.mul(b, c))
  {
    assert Pick(a, b, c);
  }

  lemma MulOne<F(!new)>(k: Field<F>, a: F)
    requires IsField(k)
    ensures k.mul(a, k.one) == a && k.mul(k.one, a) == a
  {
    assert Pick(a, k.one, a);
  }

  lemma MulZero<F(!new)>(k: Field<F>, a: F)
    requires IsField(k)
    ensures k.mul(a, k.zero) == k.zero && k.mul(k.zero, a) == k.zero
  {
    assert Pick(a, k.zero, a);
  }

  lemma Distrib<F(!new)>(k: Field<F>, a: F, b: F, c: F)
    requires IsField(k)
    ensures k.mul(a, k.add(b, c)) == k.add(k.mul(a, b), k.mul(a, c))
    ensures k.mul(k.add(b, c), a) == k.add(k.mul(b, a), k.mul(c, a))
  {
    assert Pick(a, b, c);
    MulComm(k, a, k.add(b, c));
    MulComm(k, a, b);
    MulComm(k, a, c);
  }

  lemma NoZeroDivisor<F(!new)>(k: Field<F>, a: F, b: F)
    requires IsField(k) && k.mul(a, b) == k.zero
    ensures a == k.zero || b == k.zero
  {
    assert Pick(a, b, a);
  }

  lemma AddSwap<F(!new)>(k: Field<F>, a: F, b: F, c: F, d: F)
    requires IsField(k)
    ensures k.add(k.add(a, b), k.add(c, d)) == k.add(k.add(a, c), k.add(b, d))
  {
    AddAssoc(k, a, b, k.add(c, d));
    AddAssoc(k, b, c, d);
    AddComm(k, b, c);
    AddAssoc(k, c, b, d);
    AddAssoc(k, a, c, k.add(b, d));
  }

  lemma MulSwap<F(!new)>(k: Field<F>, a: F, b: F, c: F)
    requires IsField(k)
    ensures k.mul(k.mul(a, b), c) == k.mul(k.mul(a, c), b)
  {
    MulAssoc(k, a, b, c);
    MulComm(k, b, c);
    MulAssoc(k, a, c, b);
  }

  /** In characteristic two, a sum is zero only for equal summands. */
  lemma AddCancel<F(!new)>(k: Field<F>, a: F, b: F)
    requires IsField(k) && k.add(a, b) == k.zero
    ensures a == b
  {
    AddAssoc(k, a, b, b);
    AddSelf(k, b);
    AddZero(k, a);
    AddZero(k, b);
  }

  // ---------- powers ----------

  ghost function Pow<F>(k: Field<F>, x: F, n: nat): F {
    if n == 0 then k.one else k.mul(Pow(k, x, n - 1), x)
  }

  lemma {:induction false} PowAdd<F(!new)>(k: Field<F>, x: F, m: nat, n: nat)
    requires IsField(k)
    ensures Pow(k, x, m + n) == k.mul(Pow(k, x, m), Pow(k, x, n))
  {
    if n == 0 {
      MulOne(k, Pow(k, x, m));
    } else {
      PowAdd(k, x, m, n - 1);
      MulAssoc(k, Pow(k, x, m), Pow(k, x, n - 1), x);
    }
  }

  lemma {:induction false} PowMul<F(!new)>(k: Field<F>, x: F, m: nat, n: nat)
    requires IsField(k)
    ensures Pow(k, Pow(k, x, m), n) == Pow(k, x, m * n)
  {
    if n > 0 {
      PowMul(k, x, m, n - 1);
      PowAdd(k, x, m * (n - 1), m);
      assert m * (n - 1) + m == m * n;
    }
  }

  // ---------- evaluation ----------

  /** Horner's rule. */
  ghost function Eval<F>(k: Field<F>, p: seq<F>, x: F): F {
    if |p| == 0 then k.zero else k.add(k.mul(Eval(k, p[..|p| - 1], x), x), p[|p| - 1])
  }

  ghost function Zeros<F>(k: Field<F>, n: nat): seq<F> {
    seq(n, _ => k.zero)
  }

  ghost function AddPoly<F>(k: Field<F>, p: seq<F>, q: seq<F>): seq<F>
    requires |p| == |q|
  {
    seq(|p|, i requires 0 <= i < |p| => k.add(p[i], q[i]))
  }

  ghost function Scale<F>(k: Field<F>, c: F, p: seq<F>): seq<F> {
    seq(|p|, i requires 0 <= i < |p| => k.mul(c, p[i]))
  }

  lemma {:induction false} EvalZeros<F(!new)>(k: Field<F>, n: nat, x: F)
    requires IsField(k)
    ensures Eval(k, Zeros(k, n), x) == k.zero
  {
    if n > 0 {
      assert Zeros(k, n)[..n - 1] == Zeros(k, n - 1);
      EvalZeros(k, n - 1, x);
      MulZero(k, x);
      AddZero(k, k.zero);
    }
  }

  lemma {:induction false} EvalConcat<F(!new)>(k: Field<F>, p: seq<F>, q: seq<F>, x: F)
    requires IsField(k)
    ensures Eval(k, p + q, x) == k.add(k.mul(Eval(k, p, x), Pow(k, x, |q|)), Eval(k, q, x))
  {
    var e := Eval(k, p, x);
    if |q| == 0 {
      assert p + q == p;
      MulOne(k, e);
      AddZero(k, e);
    } else {
      var q' := q[..|q| - 1];
      assert (p + q)[..|p + q| - 1] == p + q';
      EvalConcat(k, p, q', x);
      Distrib(k, x, k.mul(e, Pow(k, x, |q'|)), Eval(k, q', x));
      MulAssoc(k, e, Pow(k, x, |q'|), x);
      AddAssoc(k, k.mul(e, Pow(k, x, |q|)), k.mul(Eval(k, q', x), x), q[|q| - 1]);
    }
  }

  lemma EvalSingle<F(!new)>(k: Field<F>, c: F, x: F)
    requires IsField(k)
    ensures Eval(k, [c], x) == c
  {
    assert [c][..0] == [];
    MulZero(k, x);
    AddZero(k, c);
  }

  lemma EvalCons<F(!new)>(k: Field<F>, p: seq<F>, x: F)
    requires IsField(k) && |p| > 0
    ensures Eval(k, p, x) == k.add(k.mul(p[0], Pow(k, x, |p| - 1)), Eval(k, p[1..], x))
  {
    assert p == [p[0]] + p[1..];
    EvalConcat(k, [p[0]], p[1..], x);
    EvalSingle(k, p[0], x);
  }

  /** Leading zeros do not matter. */
  lemma EvalLeadingZeros<F(!new)>(k: Field<F>, n: nat, p: seq<F>, x: F)
    requires IsField(k)
    ensures Eval(k, Zeros(k, n) + p, x) == Eval(k, p, x)
  {
    EvalConcat(k, Zeros(k, n), p, x);
    EvalZeros(k, n, x);
    MulZero(k, Pow(k, x, |p|));
    AddZero(k, Eval(k, p, x));
  }

  /** Appending zeros multiplies by a power. */
  lemma EvalTrailingZeros<F(!new)>(k: Field<F>, p: seq<F>, n: nat, x: F)
    requires IsField(k)
    ensures Eval(k, p + Zeros(k, n), x) == k.mul(Eval(k, p, x), Pow(k, x, n))
  {
    EvalConcat(k, p, Zeros(k, n), x);
    EvalZeros(k, n, x);
    AddZero(k, k.mul(Eval(k, p, x), Pow(k, x, n)));
  }

  lemma {:induction false} EvalAdd<F(!new)>(k: Field<F>, p: seq<F>, q: seq<F>, x: F)
    requires IsField(k) && |p| == |q|
    ensures Eval(k, AddPoly(k, p, q), x) == k.add(Eval(k, p, x), Eval(k, q, x))
  {
    var n := |p|;
    if n == 0 {
      AddZero(k, k.zero);
    } else {
      var p', q' := p[..n - 1], q[..n - 1];
      assert AddPoly(k, p, q)[..n - 1] == AddPoly(k, p', q');
      EvalAdd(k, p', q', x);
      Distrib(k, x, Eval(k, p', x), Eval(k, q', x));
      AddSwap(k, k.mul(Eval(k, p', x), x), k.mul(Eval(k, q', x), x), p[n - 1], q[n - 1]);
    }
  }

  lemma {:induction false} EvalScale<F(!new)>(k: Field<F>, c: F, p: seq<F>, x: F)
    requires IsField(k)
    ensures Eval(k, Scale(k, c, p), x) == k.mul(c, Eval(k, p, x))
  {
    var n := |p|;
    if n == 0 {
      MulZero(k, c);
    } else {
      var p' := p[..n - 1];
      assert Scale(k, c, p)[..n - 1] == Scale(k, c, p');
      EvalScale(k, c, p', x);
      MulAssoc(k, c, Eval(k, p', x), x);
      Distrib(k, c, k.mul(Eval(k, p', x), x), p[n - 1]);
    }
  }

  // ---------- products ----------

  /** The product, accumulated from the highest coefficient of `p` down. */
  ghost function Product<F>(k: Field<F>, p: seq<F>, q: seq<F>): (r: seq<F>)
    requires |q| >= 1
    ensures |r| == |p| + |q| - 1
  {
    if |p| == 0 then Zeros(k, |q| - 1)
    else
      var n := |p| - 1;
      AddPoly(k, Product(k, p[..n], q) + [k.zero], Zeros(k, n) + Scale(k, p[n], q))
  }

  lemma {:induction false} EvalProduct<F(!new)>(k: Field<F>, p: seq<F>, q: seq<F>, x: F)
    requires IsField(k) && |q| >= 1
    ensures Eval(k, Product(k, p, q), x) == k.mul(Eval(k, p, x), Eval(k, q, x))
  {
    var e := Eval(k, q, x);
    if |p| == 0 {
      EvalZeros(k, |q| - 1, x);
      MulZero(k, e);
    } else {
      var n := |p| - 1;
      var r := Product(k, p[..n], q);
      EvalProduct(k, p[..n], q, x);
      EvalAdd(k, r + [k.zero], Zeros(k, n) + Scale(k, p[n], q), x);
      EvalLeadingZeros(k, n, Scale(k, p[n], q), x);
      EvalScale(k, p[n], q, x);
      assert (r + [k.zero])[..|r|] == r;
      AddZero(k, k.mul(Eval(k, r, x), x));
      MulSwap(k, Eval(k, p[..n], x), e, x);
      Distrib(k, e, k.mul(Eval(k, p[..n], x), x), p[n]);
    }
  }

  /** The leading coefficient of a product is the product of the leading coefficients. */
  lemma {:induction false} ProductLead<F(!new)>(k: Field<F>, p: seq<F>, q: seq<F>)
    requires IsField(k) && |p| >= 1 && |q| >= 1
    ensures Product(k, p, q)[0] == k.mul(p[0], q[0])
  {
    AddZero(k, k.mul(p[0], q[0]));
    if |p| == 1 {
      assert Product(k, p[..0], q) == Zeros(k, |q| - 1);
    } else {
      ProductLead(k, p[..|p| - 1], q);
    }
  }

  /** Every word is the front of a multiple of a monic polynomial. */
  lemma {:induction false} Quotient<F(!new)>(k: Field<F>, data: seq<F>, g: seq<F>) returns (h: seq<F>)
    requires IsField(k) && |g| >= 1 && g[0] == k.one
    ensures |h| == |data| && Product(k, h, g)[..|data|] == data
  {
    h := [];
    if |data| > 0 {
      var n := |data| - 1;
      var front := Quotient(k, data[..n], g);
      var was := (Product(k, front, g) + [k.zero])[n];
      h := front + [k.add(data[n], was)];
      QuotientStep(k, data, g, front, was, h);
    }
  }

  lemma QuotientStep<F(!new)>(k: Field<F>, data: seq<F>, g: seq<F>, front: seq<F>, was: F, h: seq<F>)
    requires IsField(k) && |g| >= 1 && g[0] == k.one && |data| == |front| + 1
    requires Product(k, front, g)[..|front|] == data[..|front|]
    requires was == (Product(k, front, g) + [k.zero])[|front|] && h == front + [k.add(data[|front|], was)]
    ensures Product(k, h, g)[..|data|] == data
  {
    var n, p := |front|, Product(k, front, g) + [k.zero];
    assert h[..n] == front;
    var r := Product(k, h, g);
    forall t | 0 <= t < n
      ensures r[t] == data[t]
    {
      AddZero(k, p[t]);
      assert p[t] == data[..n][t];
    }
    MulOne(k, h[n]);
    AddBack(k, was, data[n]);
    assert r[n] == k.add(was, h[n]);
  }

  lemma AddBack<F(!new)>(k: Field<F>, a: F, b: F)
    requires IsField(k)
    ensures k.add(a, k.add(b, a)) == b
  {
    AddComm(k, b, a);
    AddAssoc(k, a, a, b);
    AddSelf(k, a);
    AddComm(k, k.zero, b);
    AddZero(k, b);
  }

  lemma EvalLinear<F(!new)>(k: Field<F>, r: F, x: F)
    requires IsField(k)
    ensures Eval(k, [k.one, r], x) == k.add(x, r)
  {
    assert [k.one, r][..1] == [k.one];
    EvalSingle(k, k.one, x);
    MulOne(k, x);
  }

  /** Adding the multiple c * q at position i. */
  ghost predicate AddsAt<F>(k: Field<F>, c: F, q: seq<F>, i: nat, base: seq<F>, num: seq<F>) {
    && |num| == |base|
    && forall t :: 0 <= t < |num| ==> num[t] == if i <= t < i + |q| then k.add(base[t], k.mul(c, q[t - i])) else base[t]
  }

  lemma AddsAtIsAddPoly<F(!new)>(k: Field<F>, c: F, q: seq<F>, i: nat, l: seq<F>, n: nat, num: seq<F>)
    requires IsField(k) && |l| == i + |q| && AddsAt(k, c, q, i, l + Zeros(k, n), num)
    ensures num == AddPoly(k, l, Zeros(k, i) + Scale(k, c, q)) + Zeros(k, n)
  {
    var r := Zeros(k, i) + Scale(k, c, q);
    forall t | 0 <= t < |num|
      ensures num[t] == (AddPoly(k, l, r) + Zeros(k, n))[t]
    {
      if t < i {
        AddZero(k, l[t]);
      }
    }
  }

  /** One more coefficient of p extends the product. */
  lemma ProductStep<F(!new)>(k: Field<F>, p: seq<F>, q: seq<F>, i: nat, base: seq<F>, num: seq<F>)
    requires IsField(k) && i < |p| && |q| >= 1
    requires base == Product(k, p[..i], q) + Zeros(k, |p| - i)
    requires AddsAt(k, p[i], q, i, base, num)
    ensures num == Product(k, p[..i + 1], q) + Zeros(k, |p| - i - 1)
  {
    assert p[..i + 1][..i] == p[..i];
    var l := Product(k, p[..i], q) + [k.zero];
    assert base == l + Zeros(k, |p| - i - 1);
    AddsAtIsAddPoly(k, p[i], q, i, l, |p| - i - 1, num);
  }

  /** Adding a shifted multiple of e leaves the value unchanged wherever e vanishes. */
  lemma EvalCongruent<F(!new)>(k: Field<F>, p: seq<F>, e: seq<F>, c: F, num: seq<F>, x: F)
    requires IsField(k) && |e| <= |p| == |num|
    requires forall t :: 0 <= t < |p| ==> num[t] == if t < |e| then k.add(p[t], k.mul(c, e[t])) else p[t]
    requires Eval(k, e, x) == k.zero
    ensures Eval(k, num, x) == Eval(k, p, x)
  {
    var n := |p| - |e|;
    var s := Scale(k, c, e) + Zeros(k, n);
    forall t | 0 <= t < |p|
      ensures num[t] == AddPoly(k, p, s)[t]
    {
      AddZero(k, p[t]);
    }
    assert num == AddPoly(k, p, s);
    EvalAdd(k, p, s, x);
    EvalTrailingZeros(k, Scale(k, c, e), n, x);
    EvalScale(k, c, e, x);
    MulZero(k, c);
    MulZero(k, Pow(k, x, n));
    AddZero(k, Eval(k, p, x));
  }

  /** Appending check symbols that agree with data * x^n wherever wanted makes the word vanish there. */
  lemma EvalCodeword<F(!new)>(k: Field<F>, data: seq<F>, check: seq<F>, x: F)
    requires IsField(k)
    requires Eval(k, check, x) == Eval(k, data + Zeros(k, |check|), x)
    ensures Eval(k, data + check, x) == k.zero
  {
    EvalConcat(k, data, check, x);
    EvalTrailingZeros(k, data, |check|, x);
    AddSelf(k, Eval(k, check, x));
  }
}
