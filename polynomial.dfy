/**
  Integer polynomials as coefficient vectors: coefficient i multiplies x^i.

  The pure functions below give the meaning of every operation of the class
  `Polynomial` (further down); the class methods are the loops of the source,
  each proved equal to its function, and the algebraic laws are lemmas about
  the functions.
 */
module Poly {

  function Max(a: int, b: int): int { if a < b then b else a }

  function Pow(x: int, n: nat): int { if n == 0 then 1 else x * Pow(x, n - 1) }

  /** Coefficient i of p, reading every missing coefficient as 0. */
  function Coef(p: seq<int>, i: int): int { if 0 <= i < |p| then p[i] else 0 }

  /** p without its constant coefficient (the empty vector stays empty). */
  function Drop1(p: seq<int>): seq<int> { if p == [] then [] else p[1..] }

  /** The sum of p[i] * x^i over every index i: what a coefficient vector denotes. */
  function PowerSum(p: seq<int>, x: int): int
  {
    if p == [] then 0 else PowerSum(p[..|p| - 1], x) + p[|p| - 1] * Pow(x, |p| - 1)
  }

  /** The value of p at x by Horner's rule: p[0] + x * (p[1] + x * (...)). */
  function Eval(p: seq<int>, x: int): int
  {
    if p == [] then 0 else p[0] + x * Eval(p[1..], x)
  }

  /** a * x^b: b zero coefficients followed by a. */
  function Monomial(a: int, b: nat): seq<int>
  {
    seq(b + 1, i => if i == b then a else 0)
  }

  /** Coefficient-wise sum; the shorter vector is read as padded with zeros. */
  function Add(a: seq<int>, b: seq<int>): seq<int>
  {
    seq(Max(|a|, |b|), i => Coef(a, i) + Coef(b, i))
  }

  /** Coefficient-wise difference; the shorter vector is read as padded with zeros. */
  function Sub(a: seq<int>, b: seq<int>): seq<int>
  {
    seq(Max(|a|, |b|), i => Coef(a, i) - Coef(b, i))
  }

  function Scale(c: int, p: seq<int>): seq<int>
  {
    seq(|p|, i requires 0 <= i < |p| => c * p[i])
  }

  /** The sum of a[i] * b[k - i] over the indices i of a: coefficient k of a * b. */
  function Conv(a: seq<int>, b: seq<int>, k: int): int
  {
    if a == [] then 0 else a[0] * Coef(b, k) + Conv(a[1..], b, k - 1)
  }

  /** The product a * b, with |a| + |b| - 1 coefficients (never trimmed). */
  function Mul(a: seq<int>, b: seq<int>): seq<int>
    requires |a| >= 1 && |b| >= 1
  {
    seq(|a| + |b| - 1, k => Conv(a, b, k))
  }

  /** a(b(x)), built Horner-style from the highest coefficient of a down. */
  function Composition(a: seq<int>, b: seq<int>): (r: seq<int>)
    requires |b| >= 1
    ensures |r| >= 1
  {
    if a == [] then [0] else Add([a[0]], Mul(b, Composition(a[1..], b)))
  }

  /** The formal derivative; a constant differentiates to the zero polynomial [0]. */
  function Derivative(p: seq<int>): seq<int>
    requires |p| >= 1
  {
    if |p| == 1 then [0] else seq(|p| - 1, i requires 0 <= i < |p| - 1 => (i + 1) * p[i + 1])
  }

  // ---------------------------------------------------------------------------
  // Evaluation

  lemma {:induction false} PowerSumCons(c: int, q: seq<int>, x: int)
    ensures PowerSum([c] + q, x) == c + x * PowerSum(q, x)
    decreases |q|
  {
    if q == [] {
      assert ([c] + q)[..0] == [];
    } else {
      var s := [c] + q;
      var q' := q[..|q| - 1];
      var last := q[|q| - 1];
      assert s[..|s| - 1] == [c] + q';
      PowerSumCons(c, q', x);
      calc {
        PowerSum(s, x);
        PowerSum([c] + q', x) + last * Pow(x, |q|);
        c + x * PowerSum(q', x) + last * (x * Pow(x, |q| - 1));
        { assert last * (x * Pow(x, |q| - 1)) == x * (last * Pow(x, |q| - 1)); }
        c + x * (PowerSum(q', x) + last * Pow(x, |q| - 1));
        c + x * PowerSum(q, x);
      }
    }
  }

  /** Horner's rule computes the sum of c_i * x^i. */
  lemma {:induction false} EvalIsPowerSum(p: seq<int>, x: int)
    ensures Eval(p, x) == PowerSum(p, x)
    decreases |p|
  {
    if p != [] {
      EvalIsPowerSum(p[1..], x);
      assert p == [p[0]] + p[1..];
      PowerSumCons(p[0], p[1..], x);
    }
  }

  lemma EvalCons(p: seq<int>, x: int)
    ensures Eval(p, x) == Coef(p, 0) + x * Eval(Drop1(p), x)
  {
  }

  /** The monomial a * x^b evaluates to a times x to the power b. */
  lemma {:induction false} EvalMonomial(a: int, b: nat, x: int)
    ensures Eval(Monomial(a, b), x) == a * Pow(x, b)
    decreases b
  {
    if b == 0 {
      assert Monomial(a, 0) == [a];
    } else {
      assert Monomial(a, b)[1..] == Monomial(a, b - 1);
      EvalMonomial(a, b - 1, x);
      assert x * (a * Pow(x, b - 1)) == a * (x * Pow(x, b - 1));
    }
  }

  // ---------------------------------------------------------------------------
  // Addition and subtraction

  lemma AddDrop1(a: seq<int>, b: seq<int>)
    ensures Drop1(Add(a, b)) == Add(Drop1(a), Drop1(b))
  {
  }

  lemma SubDrop1(a: seq<int>, b: seq<int>)
    ensures Drop1(Sub(a, b)) == Sub(Drop1(a), Drop1(b))
  {
  }

  /** Evaluation is additive: (a + b)(x) == a(x) + b(x). */
  lemma {:induction false} EvalAdd(a: seq<int>, b: seq<int>, x: int)
    ensures Eval(Add(a, b), x) == Eval(a, x) + Eval(b, x)
    decreases |a| + |b|
  {
    if a != [] || b != [] {
      AddDrop1(a, b);
      EvalAdd(Drop1(a), Drop1(b), x);
      EvalCons(Add(a, b), x);
      EvalCons(a, x);
      EvalCons(b, x);
      var ea, eb := Eval(Drop1(a), x), Eval(Drop1(b), x);
      assert x * (ea + eb) == x * ea + x * eb;
    }
  }

  /** Evaluation respects subtraction: (a - b)(x) == a(x) - b(x). */
  lemma {:induction false} EvalSub(a: seq<int>, b: seq<int>, x: int)
    ensures Eval(Sub(a, b), x) == Eval(a, x) - Eval(b, x)
    decreases |a| + |b|
  {
    if a != [] || b != [] {
      SubDrop1(a, b);
      EvalSub(Drop1(a), Drop1(b), x);
      EvalCons(Sub(a, b), x);
      EvalCons(a, x);
      EvalCons(b, x);
      var ea, eb := Eval(Drop1(a), x), Eval(Drop1(b), x);
      assert x * (ea - eb) == x * ea - x * eb;
    }
  }

  // ---------------------------------------------------------------------------
  // Multiplication

  lemma {:induction false} EvalScale(c: int, p: seq<int>, x: int)
    ensures Eval(Scale(c, p), x) == c * Eval(p, x)
    decreases |p|
  {
    if p != [] {
      assert Scale(c, p)[1..] == Scale(c, p[1..]);
      EvalScale(c, p[1..], x);
      assert x * (c * Eval(p[1..], x)) == c * (x * Eval(p[1..], x));
    }
  }

  lemma {:induction false} ConvBelowZero(a: seq<int>, b: seq<int>, k: int)
    requires k < 0
    ensures Conv(a, b, k) == 0
    decreases |a|
  {
    if a != [] {
      ConvBelowZero(a[1..], b, k - 1);
    }
  }

  /** Appending a coefficient c to a adds c * b[k - |a|] to coefficient k of the product. */
  lemma {:induction false} ConvSnoc(a: seq<int>, c: int, b: seq<int>, k: int)
    ensures Conv(a + [c], b, k) == Conv(a, b, k) + c * Coef(b, k - |a|)
    decreases |a|
  {
    if a == [] {
      assert ([c] + [])[1..] == [];
    } else {
      assert (a + [c])[1..] == a[1..] + [c];
      ConvSnoc(a[1..], c, b, k - 1);
    }
  }

  /** One step of schoolbook multiplication: a * b == a[0] * b + x * (a[1..] * b). */
  lemma MulStep(a: seq<int>, b: seq<int>)
    requires |a| >= 2 && |b| >= 1
    ensures Mul(a, b) == Add(Scale(a[0], b), [0] + Mul(a[1..], b))
  {
    var r := Add(Scale(a[0], b), [0] + Mul(a[1..], b));
    assert |r| == |Mul(a, b)|;
    forall k | 0 <= k < |r| ensures Mul(a, b)[k] == r[k] {
      if k == 0 {
        ConvBelowZero(a[1..], b, -1);
      }
    }
  }

  lemma HornerStepProduct(c: int, x: int, ea: int, eb: int)
    ensures c * eb + x * (ea * eb) == (c + x * ea) * eb
  {
  }

  lemma MulSingle(c: int, b: seq<int>)
    requires |b| >= 1
    ensures Mul([c], b) == Scale(c, b)
  {
    forall k | 0 <= k < |b| ensures Mul([c], b)[k] == Scale(c, b)[k] {
      assert [c][1..] == [];
      assert Conv([c], b, k) == c * Coef(b, k) + Conv([], b, k - 1);
    }
  }

  /** Evaluation is multiplicative: (a * b)(x) == a(x) * b(x). */
  lemma {:induction false} EvalMul(a: seq<int>, b: seq<int>, x: int)
    requires |a| >= 1 && |b| >= 1
    ensures Eval(Mul(a, b), x) == Eval(a, x) * Eval(b, x)
    decreases |a|
  {
    if |a| == 1 {
      MulSingle(a[0], b);
      assert a == [a[0]];
      EvalScale(a[0], b, x);
      assert Eval(a, x) == a[0];
    } else {
      var t := Mul(a[1..], b);
      MulStep(a, b);
      EvalAdd(Scale(a[0], b), [0] + t, x);
      EvalScale(a[0], b, x);
      assert ([0] + t)[1..] == t;
      assert Eval([0] + t, x) == x * Eval(t, x);
      EvalMul(a[1..], b, x);
      var ea, eb := Eval(a[1..], x), Eval(b, x);
      assert Eval(Mul(a, b), x) == a[0] * eb + x * (ea * eb);
      HornerStepProduct(a[0], x, ea, eb);
    }
  }

  // ---------------------------------------------------------------------------
  // Composition

  /** Composition substitutes: a.compose(b) evaluated at x is a evaluated at b(x). */
  lemma {:induction false} EvalCompose(a: seq<int>, b: seq<int>, x: int)
    requires |b| >= 1
    ensures Eval(Composition(a, b), x) == Eval(a, Eval(b, x))
    decreases |a|
  {
    if a == [] {
      assert Eval([0], x) == 0;
    } else {
      var c := Composition(a[1..], b);
      EvalAdd([a[0]], Mul(b, c), x);
      EvalMul(b, c, x);
      EvalCompose(a[1..], b, x);
      assert Eval([a[0]], x) == a[0];
    }
  }

  // ---------------------------------------------------------------------------
  // Differentiation

  /** Power rule: the derivative of a * x^n is (n * a) * x^(n - 1), and 0 for a constant. */
  lemma DerivativeMonomial(a: int, n: nat)
    ensures Derivative(Monomial(a, n)) == if n == 0 then [0] else Monomial(n * a, n - 1)
  {
    if n > 0 {
      var d := Derivative(Monomial(a, n));
      assert |d| == n;
      forall i | 0 <= i < n ensures d[i] == Monomial(n * a, n - 1)[i] {
        assert d[i] == (i + 1) * Monomial(a, n)[i + 1];
      }
    }
  }

  /** Coefficient i of the derivative is (i + 1) times coefficient i + 1, here and past the end alike. */
  lemma CoefDerivative(p: seq<int>, i: nat)
    requires |p| >= 1
    ensures Coef(Derivative(p), i) == (i + 1) * Coef(p, i + 1)
  {
  }

  /** Differentiation is linear over addition. */
  lemma DerivativeAdd(a: seq<int>, b: seq<int>)
    requires |a| >= 1 && |b| >= 1
    ensures Derivative(Add(a, b)) == Add(Derivative(a), Derivative(b))
  {
    var l := Derivative(Add(a, b));
    var r := Add(Derivative(a), Derivative(b));
    assert |l| == |r|;
    forall i | 0 <= i < |l| ensures l[i] == r[i] {
      CoefDerivative(Add(a, b), i);
      CoefDerivative(a, i);
      CoefDerivative(b, i);
      Distribute(i + 1, Coef(a, i + 1), Coef(b, i + 1));
    }
  }

  /** Differentiation is linear over subtraction. */
  lemma DerivativeSub(a: seq<int>, b: seq<int>)
    requires |a| >= 1 && |b| >= 1
    ensures Derivative(Sub(a, b)) == Sub(Derivative(a), Derivative(b))
  {
    var l := Derivative(Sub(a, b));
    var r := Sub(Derivative(a), Derivative(b));
    assert |l| == |r|;
    forall i | 0 <= i < |l| ensures l[i] == r[i] {
      CoefDerivative(Sub(a, b), i);
      CoefDerivative(a, i);
      CoefDerivative(b, i);
      assert Coef(Sub(a, b), i + 1) == Coef(a, i + 1) - Coef(b, i + 1);
      DistributeSub(i + 1, Coef(a, i + 1), Coef(b, i + 1));
    }
  }

  lemma Distribute(n: int, u: int, v: int)
    ensures n * (u + v) == n * u + n * v
  {
  }

  lemma DistributeSub(n: int, u: int, v: int)
    ensures n * (u - v) == n * u - n * v
  {
  }

  // ---------------------------------------------------------------------------
  // The worked example of the source's test client: p = 4x^3 + 3x^2 + 2x + 1, q = 3x^2 + 5.

  lemma DemoBuildsP()
    ensures Add(Add(Add(Monomial(4, 3), Monomial(3, 2)), Monomial(1, 0)), Monomial(2, 1)) == [1, 2, 3, 4]
    ensures Add(Monomial(3, 2), Monomial(5, 0)) == [5, 0, 3]
  {
  }

  lemma DemoResults()
    ensures Add([1, 2, 3, 4], [5, 0, 3]) == [6, 2, 6, 4]
    ensures Mul([1, 2, 3, 4], [5, 0, 3]) == [5, 10, 18, 26, 9, 12]
    ensures Sub([0], [1, 2, 3, 4]) == [-1, -2, -3, -4]
    ensures PowerSum([1, 2, 3, 4], 3) == 142
    ensures Derivative([1, 2, 3, 4]) == [2, 6, 12]
    ensures Derivative(Derivative([1, 2, 3, 4])) == [6, 24]
  {
    EvalIsPowerSum([1, 2, 3, 4], 3);
  }

  /** Coefficient k of q * c, for q = 3x^2 + 5, is 5 c_k + 3 c_(k-2). */
  lemma MulByQ(c: seq<int>)
    requires |c| >= 1
    ensures |Mul([5, 0, 3], c)| == |c| + 2
    ensures forall k :: 0 <= k < |c| + 2 ==> Mul([5, 0, 3], c)[k] == 5 * Coef(c, k) + 3 * Coef(c, k - 2)
  {
    forall k | 0 <= k < |c| + 2
      ensures Mul([5, 0, 3], c)[k] == 5 * Coef(c, k) + 3 * Coef(c, k - 2)
    {
      assert [5, 0, 3][1..] == [0, 3];
      assert [0, 3][1..] == [3];
      assert [3][1..] == [];
      assert Conv([3], c, k - 2) == 3 * Coef(c, k - 2);
      assert Conv([0, 3], c, k - 1) == 3 * Coef(c, k - 2);
      assert Conv([5, 0, 3], c, k) == 5 * Coef(c, k) + 3 * Coef(c, k - 2);
    }
  }

  /** q * c equals m when every coefficient of m is 5 c_k + 3 c_(k-2). */
  lemma MulByQIs(c: seq<int>, m: seq<int>)
    requires |c| >= 1 && |m| == |c| + 2
    requires forall k :: 0 <= k < |m| ==> m[k] == 5 * Coef(c, k) + 3 * Coef(c, k - 2)
    ensures Mul([5, 0, 3], c) == m
  {
    MulByQ(c);
    var r := Mul([5, 0, 3], c);
    forall k | 0 <= k < |m|
      ensures r[k] == m[k]
    {
      assert r[k] == 5 * Coef(c, k) + 3 * Coef(c, k - 2);
    }
  }

  lemma ComposeQ1()
    ensures Composition([4], [5, 0, 3]) == [4, 0, 0]
  {
    assert [4][1..] == [];
    MulByQIs([0], [0, 0, 0]);
  }

  lemma ComposeQ2()
    ensures Composition([3, 4], [5, 0, 3]) == [23, 0, 12, 0, 0]
  {
    assert [3, 4][1..] == [4];
    ComposeQ1();
    MulByQIs([4, 0, 0], [20, 0, 12, 0, 0]);
  }

  lemma ComposeQ3()
    ensures Composition([2, 3, 4], [5, 0, 3]) == [117, 0, 129, 0, 36, 0, 0]
  {
    assert [2, 3, 4][1..] == [3, 4];
    ComposeQ2();
    MulByQIs([23, 0, 12, 0, 0], [115, 0, 129, 0, 36, 0, 0]);
  }

  /**
    p(q(x)) = 108x^6 + 567x^4 + 996x^2 + 586, but since degrees are never
    trimmed the composed vector keeps two trailing zero coefficients.
   */
  lemma DemoCompose()
    ensures Composition([1, 2, 3, 4], [5, 0, 3]) == [586, 0, 996, 0, 567, 0, 108, 0, 0]
  {
    assert [1, 2, 3, 4][1..] == [2, 3, 4];
    ComposeQ3();
    MulByQIs([117, 0, 129, 0, 36, 0, 0], [585, 0, 996, 0, 567, 0, 108, 0, 0]);
  }

  // ---------------------------------------------------------------------------
  // The class: a coefficient array and its degree field.

  /**
    The test `coef[i].equals(0)` of the degree loop compares a BigInteger with a
    boxed Integer; BigInteger.equals is false for any argument that is not a
    BigInteger, so the test never holds.
   */
  function BigIntegerEqualsInteger(value: int, other: int): bool { false }

  class Polynomial {
    var coef: array<int>
    var deg: int

    /** Every polynomial the class builds keeps deg == coef.Length - 1 (degree() never trims). */
    ghost predicate Valid()
      reads this
    {
      coef.Length >= 1 && deg == coef.Length - 1
    }

    /** Polynomial(a, b) is a * x^b. */
    constructor (a: int, b: nat)
      ensures Valid() && fresh(coef)
      ensures coef[..] == Monomial(a, b)
    {
      var c := new int[b + 1];
      for i := 0 to b
        invariant forall m :: 0 <= m < i ==> c[m] == 0
      {
        c[i] := 0;
      }
      c[b] := a;
      coef := c;
      new;
      deg := Degree();
    }

    /** The last index whose "non-zero" test passes; since the test always passes it is coef.Length - 1. */
    method Degree() returns (d: int)
      requires coef.Length >= 1
      ensures d == coef.Length - 1
    {
      d := 0;
      for i := 0 to coef.Length
        invariant d == if i == 0 then 0 else i - 1
      {
        if !BigIntegerEqualsInteger(coef[i], 0) {
          d := i;
        }
      }
    }

    method Plus(b: Polynomial) returns (c: Polynomial)
      requires Valid() && b.Valid()
      ensures fresh(c) && fresh(c.coef) && c.Valid()
      ensures c.coef[..] == Add(coef[..], b.coef[..])
    {
      c := new Polynomial(0, Max(deg, b.deg));
      var cc := c.coef;
      for i := 0 to deg + 1
        invariant c.coef == cc && cc.Length == Max(coef.Length, b.coef.Length)
        invariant forall m :: 0 <= m < cc.Length ==> cc[m] == if m < i then coef[m] else 0
      {
        cc[i] := cc[i] + coef[i];
      }
      for i := 0 to b.deg + 1
        invariant c.coef == cc && cc.Length == Max(coef.Length, b.coef.Length)
        invariant forall m :: 0 <= m < cc.Length ==> cc[m] == Coef(coef[..], m) + if m < i then b.coef[m] else 0
      {
        cc[i] := cc[i] + b.coef[i];
      }
      c.deg := c.Degree();
    }

    method Minus(b: Polynomial) returns (c: Polynomial)
      requires Valid() && b.Valid()
      ensures fresh(c) && fresh(c.coef) && c.Valid()
      ensures c.coef[..] == Sub(coef[..], b.coef[..])
    {
      c := new Polynomial(0, Max(deg, b.deg));
      var cc := c.coef;
      for i := 0 to deg + 1
        invariant c.coef == cc && cc.Length == Max(coef.Length, b.coef.Length)
        invariant forall m :: 0 <= m < cc.Length ==> cc[m] == if m < i then coef[m] else 0
      {
        cc[i] := cc[i] + coef[i];
      }
      for i := 0 to b.deg + 1
        invariant c.coef == cc && cc.Length == Max(coef.Length, b.coef.Length)
        invariant forall m :: 0 <= m < cc.Length ==> cc[m] == Coef(coef[..], m) - if m < i then b.coef[m] else 0
      {
        cc[i] := cc[i] - b.coef[i];
      }
      c.deg := c.Degree();
    }

    /** Schoolbook convolution: c[i + j] += a[i] * b[j] for every pair of indices. */
    method Times(b: Polynomial) returns (c: Polynomial)
      requires Valid() && b.Valid()
      ensures fresh(c) && fresh(c.coef) && c.Valid()
      ensures c.coef[..] == Mul(coef[..], b.coef[..])
    {
      ghost var a, bs := coef[..], b.coef[..];
      c := new Polynomial(0, deg + b.deg);
      var cc := c.coef;
      for i := 0 to deg + 1
        invariant c.coef == cc && cc.Length == |a| + |bs| - 1
        invariant forall k :: 0 <= k < cc.Length ==> cc[k] == Conv(a[..i], bs, k)
      {
        for j := 0 to b.deg + 1
          invariant c.coef == cc && cc.Length == |a| + |bs| - 1
          invariant forall k :: 0 <= k < cc.Length ==>
            cc[k] == Conv(a[..i], bs, k) + if i <= k < i + j then a[i] * bs[k - i] else 0
        {
          cc[i + j] := cc[i + j] + coef[i] * b.coef[j];
        }
        forall k | 0 <= k < cc.Length ensures cc[k] == Conv(a[..i + 1], bs, k) {
          assert a[..i + 1] == a[..i] + [a[i]];
          ConvSnoc(a[..i], a[i], bs, k);
        }
      }
      assert a[..deg + 1] == a;
      c.deg := c.Degree();
    }

    /** a(b(x)), Horner-style: start from 0 and fold c := a[i] + b * c from the top coefficient down. */
    method Compose(b: Polynomial) returns (c: Polynomial)
      requires Valid() && b.Valid()
      ensures fresh(c) && fresh(c.coef) && c.Valid()
      ensures c.coef[..] == Composition(coef[..], b.coef[..])
    {
      c := new Polynomial(0, 0);
      var i := deg;
      while i >= 0
        invariant -1 <= i <= deg
        invariant fresh(c) && fresh(c.coef) && c.Valid()
        invariant c.coef[..] == Composition(coef[i + 1..], b.coef[..])
      {
        var term := new Polynomial(coef[i], 0);
        var t := b.Times(c);
        c := term.Plus(t);
        assert coef[i..][1..] == coef[i + 1..];
        i := i - 1;
      }
    }

    /** Horner's rule from the top coefficient down; the result is the sum of coef[i] * x^i. */
    method Evaluate(x: int) returns (p: int)
      requires Valid()
      ensures p == PowerSum(coef[..], x)
    {
      p := 0;
      var i := deg;
      while i >= 0
        invariant -1 <= i <= deg
        invariant p == Eval(coef[i + 1..], x)
      {
        assert coef[i..][1..] == coef[i + 1..];
        p := coef[i] + x * p;
        i := i - 1;
      }
      assert coef[0..] == coef[..];
      EvalIsPowerSum(coef[..], x);
    }

    /** New coefficient i is (i + 1) * coef[i + 1]; a constant gives the zero polynomial. */
    method Differentiate() returns (d: Polynomial)
      requires Valid()
      ensures fresh(d) && d.Valid()
      ensures d.coef[..] == Derivative(coef[..])
    {
      if deg == 0 {
        d := new Polynomial(0, 0);
        return;
      }
      d := new Polynomial(0, deg - 1);
      d.deg := deg - 1;
      var dc := d.coef;
      for i := 0 to deg
        invariant d.coef == dc && dc.Length == deg && d.deg == deg - 1
        invariant forall m :: 0 <= m < dc.Length ==> dc[m] == if m < i then (m + 1) * coef[m + 1] else 0
      {
        dc[i] := coef[i + 1] * (i + 1);
      }
    }

    /** A fresh copy of the coefficients: later changes to either do not reach the other. */
    method GetCoefficients() returns (r: array<int>)
      ensures fresh(r) && r[..] == coef[..]
    {
      r := new int[coef.Length];
      for i := 0 to coef.Length
        invariant forall m :: 0 <= m < i ==> r[m] == coef[m]
      {
        r[i] := coef[i];
      }
    }

    /** Overwrites coefficient index in place and returns the receiver itself. */
    method AlterCoefficientAt(index: int, value: int) returns (self: Polynomial)
      requires 0 <= index < coef.Length
      modifies coef
      ensures self == this
      ensures coef[..] == old(coef[..])[index := value]
    {
      coef[index] := value;
      self := this;
    }
  }
}
