// Polynomials over GF(2^8) and Lagrange interpolation: `evaluate` and
// `interpolate` of sdk/account/internal/shamir/shamir.go.

module Polynomial {
  import opened Basics
  import opened Gf256

  /** Coefficients, lowest degree first; the intercept is element 0. */
  type Poly = seq<byte>

  function Eval(c: Poly, x: byte): byte {
    if c == [] then 0 else Add(c[0], Mul(x, Eval(c[1..], x)))
  }

  /** Horner's rule from the top coefficient, with the source's shortcut at zero. */
  method Evaluate(c: Poly, x: byte) returns (out: byte)
    requires c != []
    ensures out == Eval(c, x)
  {
    if x == 0 {
      Units(Eval(c[1..], x));
      AddLaws(c[0], 0, 0);
      return c[0];
    }
    hide Add, Mul;
    out := c[|c| - 1];
    Units(x);
    AddLaws(out, 0, 0);
    assert c[|c| - 1..][1..] == [];
    var i := |c| - 1;
    while i > 0
      invariant 0 <= i < |c|
      invariant out == Eval(c[i..], x)
    {
      i := i - 1;
      assert c[i..][1..] == c[i + 1..];
      Comm(out, x);
      AddLaws(Mul(out, x), c[i], 0);
      out := Add(Mul(out, x), c[i]);
    }
    assert c[0..] == c;
  }

  lemma DistinctDifference(xs: seq<byte>, i: nat, j: nat)
    requires Distinct(xs) && i < |xs| && j < |xs| && i != j
    ensures Add(xs[i], xs[j]) != 0
  {
    AddLaws(xs[i], xs[j], 0);
  }

  /** The i-th Lagrange basis value at x over the first j abscissas. */
  function Basis(xs: seq<byte>, i: nat, x: byte, j: nat): byte
    requires Distinct(xs) && i < |xs| && j <= |xs|
  {
    if j == 0 then 1
    else if j - 1 == i then Basis(xs, i, x, j - 1)
    else
      DistinctDifference(xs, i, j - 1);
      Mul(Basis(xs, i, x, j - 1), Div(Add(x, xs[j - 1]), Add(xs[i], xs[j - 1])))
  }

  /** The sum of the first i interpolation terms. */
  function Interp(xs: seq<byte>, ys: seq<byte>, x: byte, i: nat): byte
    requires Distinct(xs) && |ys| == |xs| && i <= |xs|
  {
    if i == 0 then 0
    else Add(Interp(xs, ys, x, i - 1), Mul(ys[i - 1], Basis(xs, i - 1, x, |xs|)))
  }

  /** The source's double loop. */
  method Interpolate(xs: seq<byte>, ys: seq<byte>, x: byte) returns (result: byte)
    requires Distinct(xs) && |ys| == |xs|
    ensures result == Interp(xs, ys, x, |xs|)
  {
    hide Add, Mul, Div;
    result := 0;
    for i := 0 to |xs|
      invariant result == Interp(xs, ys, x, i)
    {
      var basis: byte := 1;
      for j := 0 to |xs|
        invariant basis == Basis(xs, i, x, j)
      {
        if i != j {
          DistinctDifference(xs, i, j);
          basis := Mul(basis, Div(Add(x, xs[j]), Add(xs[i], xs[j])));
        }
      }
      result := Add(result, Mul(ys[i], basis));
    }
  }

  // ---- Polynomial arithmetic used to reason about the interpolation sum ----

  function Sum(p: Poly, q: Poly): (r: Poly)
    requires |p| == |q|
    ensures |r| == |p|
  {
    if p == [] then [] else [Add(p[0], q[0])] + Sum(p[1..], q[1..])
  }

  function Scaled(k: byte, p: Poly): (r: Poly)
    ensures |r| == |p|
  {
    if p == [] then [] else [Mul(k, p[0])] + Scaled(k, p[1..])
  }

  /** (X + root) . p */
  function TimesRoot(p: Poly, root: byte): (r: Poly)
    ensures |r| == |p| + 1
  {
    Sum(Scaled(root, p) + [0], [0] + p)
  }

  lemma {:induction false} EvalSum(p: Poly, q: Poly, x: byte)
    requires |p| == |q|
    ensures Eval(Sum(p, q), x) == Add(Eval(p, x), Eval(q, x))
  {
    hide Add, Mul;
    if p == [] {
      AddLaws(0, 0, 0);
    } else {
      EvalSum(p[1..], q[1..], x);
      assert Sum(p, q)[1..] == Sum(p[1..], q[1..]);
      Distrib(Eval(p[1..], x), Eval(q[1..], x), x);
      AddFour(p[0], q[0], Mul(x, Eval(p[1..], x)), Mul(x, Eval(q[1..], x)));
    }
  }

  lemma {:induction false} EvalScaled(k: byte, p: Poly, x: byte)
    ensures Eval(Scaled(k, p), x) == Mul(k, Eval(p, x))
  {
    hide Add, Mul;
    if p == [] {
      Units(k);
    } else {
      EvalScaled(k, p[1..], x);
      assert Scaled(k, p)[1..] == Scaled(k, p[1..]);
      var t := Eval(p[1..], x);
      Distrib(p[0], Mul(x, t), k);
      Assoc(x, k, t);
      Comm(x, k);
      Assoc(k, x, t);
    }
  }

  lemma {:induction false} EvalPadded(p: Poly, x: byte)
    ensures Eval(p + [0], x) == Eval(p, x)
  {
    hide Add, Mul;
    if p == [] {
      assert (p + [0])[1..] == [];
      Units(x);
      AddLaws(0, 0, 0);
    } else {
      EvalPadded(p[1..], x);
      assert (p + [0])[1..] == p[1..] + [0];
    }
  }

  lemma EvalTimesRoot(p: Poly, root: byte, x: byte)
    ensures Eval(TimesRoot(p, root), x) == Mul(Add(x, root), Eval(p, x))
  {
    hide Add, Mul;
    EvalSum(Scaled(root, p) + [0], [0] + p, x);
    EvalPadded(Scaled(root, p), x);
    EvalScaled(root, p, x);
    assert ([0] + p)[1..] == p;
    AddLaws(0, Mul(x, Eval(p, x)), 0);
    AddLaws(Mul(x, Eval(p, x)), 0, 0);
    Distrib(x, root, Eval(p, x));
    AddLaws(Mul(x, Eval(p, x)), Mul(root, Eval(p, x)), 0);
  }

  // ---- The interpolation sum is a polynomial of degree below the number of points ----

  function BasisDegree(i: nat, j: nat): nat { if j <= i then j + 1 else j }

  function BasisPoly(xs: seq<byte>, i: nat, j: nat): (p: Poly)
    requires Distinct(xs) && i < |xs| && j <= |xs|
    ensures |p| == BasisDegree(i, j)
  {
    if j == 0 then [1]
    else if j - 1 == i then BasisPoly(xs, i, j - 1)
    else Scaled(Inverse(Add(xs[i], xs[j - 1])), TimesRoot(BasisPoly(xs, i, j - 1), xs[j - 1]))
  }

  lemma {:induction false} EvalBasisPoly(xs: seq<byte>, i: nat, j: nat, x: byte)
    requires Distinct(xs) && i < |xs| && j <= |xs|
    ensures Eval(BasisPoly(xs, i, j), x) == Basis(xs, i, x, j)
  {
    hide Add, Mul, Div, Inverse, TimesRoot;
    if j == 0 {
      assert [1 as byte][1..] == [];
      Units(x);
      AddLaws(1, 0, 0);
    } else {
      EvalBasisPoly(xs, i, j - 1, x);
      if j - 1 != i {
        var p := BasisPoly(xs, i, j - 1);
        var d := Add(xs[i], xs[j - 1]);
        var e := Add(x, xs[j - 1]);
        DistinctDifference(xs, i, j - 1);
        EvalScaled(Inverse(d), TimesRoot(p, xs[j - 1]), x);
        EvalTimesRoot(p, xs[j - 1], x);
        DivLaw(e, d);
        Comm(Inverse(d), Mul(e, Eval(p, x)));
        Comm(e, Eval(p, x));
        Assoc(Eval(p, x), e, Inverse(d));
      }
    }
  }

  function InterpPoly(xs: seq<byte>, ys: seq<byte>, i: nat): (p: Poly)
    requires Distinct(xs) && |ys| == |xs| && i <= |xs|
    ensures |p| == |xs|
  {
    if i == 0 then seq(|xs|, _ => 0)
    else Sum(InterpPoly(xs, ys, i - 1), Scaled(ys[i - 1], BasisPoly(xs, i - 1, |xs|)))
  }

  lemma {:induction false} EvalZeros(n: nat, x: byte)
    ensures Eval(seq(n, _ => 0), x) == 0
  {
    hide Add, Mul;
    if n == 0 {
    } else {
      var z: Poly := seq(n, _ => 0);
      EvalZeros(n - 1, x);
      assert z[1..] == seq(n - 1, _ => 0);
      Units(x);
      AddLaws(0, 0, 0);
    }
  }

  lemma {:induction false} EvalInterpPoly(xs: seq<byte>, ys: seq<byte>, i: nat, x: byte)
    requires Distinct(xs) && |ys| == |xs| && i <= |xs|
    ensures Eval(InterpPoly(xs, ys, i), x) == Interp(xs, ys, x, i)
  {
    hide Add, Mul, Basis, BasisPoly, Eval, Scaled, Sum;
    if i == 0 {
      EvalZeros(|xs|, x);
    } else {
      EvalInterpPoly(xs, ys, i - 1, x);
      var b := BasisPoly(xs, i - 1, |xs|);
      EvalSum(InterpPoly(xs, ys, i - 1), Scaled(ys[i - 1], b), x);
      EvalScaled(ys[i - 1], b, x);
      EvalBasisPoly(xs, i - 1, |xs|, x);
    }
  }

  // ---- ... and it passes through every point ----

  lemma {:induction false} BasisAt(xs: seq<byte>, i: nat, k: nat, j: nat)
    requires Distinct(xs) && i < |xs| && k < |xs| && j <= |xs|
    ensures i == k ==> Basis(xs, i, xs[k], j) == 1
    ensures i != k && k < j ==> Basis(xs, i, xs[k], j) == 0
  {
    hide Add, Mul, Div, Inverse;
    if j == 0 {
    } else {
      BasisAt(xs, i, k, j - 1);
      if j - 1 != i {
        var b := Basis(xs, i, xs[k], j - 1);
        var e := Add(xs[k], xs[j - 1]);
        var d := Add(xs[i], xs[j - 1]);
        DistinctDifference(xs, i, j - 1);
        if i == k {
          DivLaw(e, d);
          InverseLaw(d);
          Units(1);
        } else if k == j - 1 {
          AddLaws(xs[k], xs[k], 0);
          DivLaw(e, d);
          Units(Inverse(d));
          Units(b);
        } else {
          Units(Div(e, d));
        }
      }
    }
  }

  lemma {:induction false} InterpAt(xs: seq<byte>, ys: seq<byte>, k: nat, i: nat)
    requires Distinct(xs) && |ys| == |xs| && k < |xs| && i <= |xs|
    ensures Interp(xs, ys, xs[k], i) == if k < i then ys[k] else 0
  {
    hide Add, Mul;
    if i == 0 {
    } else {
      InterpAt(xs, ys, k, i - 1);
      BasisAt(xs, i - 1, k, |xs|);
      Units(ys[i - 1]);
      AddLaws(ys[i - 1], 0, 0);
      AddLaws(if k < i - 1 then ys[k] else 0, 0, 0);
    }
  }

  // ---- A polynomial with as many roots as coefficients is zero ----

  predicate AllZero(c: Poly) { forall i :: 0 <= i < |c| ==> c[i] == 0 }

  /** Synthetic division by (X + r). */
  function Quotient(c: Poly, r: byte): (q: Poly)
    ensures |q| == if c == [] then 0 else |c| - 1
  {
    if |c| <= 1 then [] else [Eval(c[1..], r)] + Quotient(c[1..], r)
  }

  lemma {:induction false} Division(c: Poly, r: byte, x: byte)
    ensures Eval(c, x) == Add(Eval(c, r), Mul(Add(x, r), Eval(Quotient(c, r), x)))
  {
    hide Add, Mul;
    if |c| == 0 {
      Units(Add(x, r));
      AddLaws(0, 0, 0);
    } else if |c| == 1 {
      assert Eval(c[1..], x) == 0 && Eval(c[1..], r) == 0;
      Units(x);
      Units(r);
      Units(Add(x, r));
      AddLaws(c[0], 0, 0);
    } else {
      var t := c[1..];
      var e, d := Eval(t, r), Add(x, r);
      var q := Eval(Quotient(t, r), x);
      Division(t, r, x);
      assert Quotient(c, r)[1..] == Quotient(t, r);
      // x.(e + d.q) == r.e + d.(e + x.q), because x.e == r.e + d.e
      Distrib(e, Mul(d, q), x);
      Distrib(e, Mul(x, q), d);
      Distrib(x, r, e);
      Assoc(x, d, q);
      Comm(x, d);
      Assoc(d, x, q);
      var xe, re, m := Mul(x, e), Mul(r, e), Mul(d, Mul(x, q));
      AddLaws(re, Add(xe, re), m);
      AddLaws(re, xe, re);
      AddLaws(xe, re, re);
      AddLaws(xe, 0, 0);
      assert Add(re, Add(Mul(d, e), m)) == Add(xe, m);
      AddLaws(c[0], re, Add(Mul(d, e), m));
    }
  }

  lemma {:induction false} ZeroQuotient(c: Poly, r: byte)
    requires Eval(c, r) == 0 && AllZero(Quotient(c, r))
    ensures AllZero(c)
  {
    hide Add, Mul;
    if |c| == 1 {
      assert Eval(c[1..], r) == 0;
      Units(r);
      AddLaws(c[0], 0, 0);
    } else if |c| > 1 {
      var q := Quotient(c, r);
      assert Eval(c[1..], r) == q[0] == 0;
      assert forall i :: 0 <= i < |q| - 1 ==> Quotient(c[1..], r)[i] == q[i + 1];
      ZeroQuotient(c[1..], r);
      Units(r);
      AddLaws(c[0], 0, 0);
      assert forall i :: 0 < i < |c| ==> c[i] == c[1..][i - 1];
    }
  }

  lemma {:induction false} ManyRoots(c: Poly, xs: seq<byte>)
    requires Distinct(xs) && |c| <= |xs|
    requires forall i :: 0 <= i < |xs| ==> Eval(c, xs[i]) == 0
    ensures AllZero(c)
    decreases |c|
  {
    hide Add, Mul;
    if c == [] {
    } else {
      var r, rest := xs[0], xs[1..];
      var q := Quotient(c, r);
      forall i | 0 <= i < |rest|
        ensures Eval(q, rest[i]) == 0
      {
        var x := rest[i];
        assert x == xs[i + 1];
        Division(c, r, x);
        DistinctDifference(xs, i + 1, 0);
        AddLaws(Mul(Add(x, r), Eval(q, x)), 0, 0);
        NoZeroDivisors(Add(x, r), Eval(q, x));
      }
      ManyRoots(q, rest);
      ZeroQuotient(c, r);
    }
  }

  lemma {:induction false} SumZero(p: Poly, q: Poly)
    requires |p| == |q| && AllZero(Sum(p, q))
    ensures p == q
    decreases |p|
  {
    hide Add;
    if p == [] {
    } else {
      assert Sum(p, q)[0] == 0;
      AddLaws(p[0], q[0], 0);
      assert forall i :: 0 <= i < |p| - 1 ==> Sum(p[1..], q[1..])[i] == Sum(p, q)[i + 1];
      SumZero(p[1..], q[1..]);
      assert p == [p[0]] + p[1..] && q == [q[0]] + q[1..];
    }
  }

  /** Values at enough distinct points determine the coefficients. */
  lemma Unique(p: Poly, q: Poly, xs: seq<byte>)
    requires Distinct(xs) && |p| == |q| <= |xs|
    requires forall i :: 0 <= i < |xs| ==> Eval(p, xs[i]) == Eval(q, xs[i])
    ensures p == q
  {
    hide Add, Mul;
    forall i | 0 <= i < |xs|
      ensures Eval(Sum(p, q), xs[i]) == 0
    {
      EvalSum(p, q, xs[i]);
      AddLaws(Eval(p, xs[i]), Eval(p, xs[i]), 0);
    }
    ManyRoots(Sum(p, q), xs);
    SumZero(p, q);
  }

  function Pad(c: Poly, n: nat): (p: Poly)
    requires |c| <= n
    ensures |p| == n
    decreases n - |c|
  {
    if |c| == n then c else Pad(c + [0], n)
  }

  lemma {:induction false} EvalPad(c: Poly, n: nat, x: byte)
    requires |c| <= n
    ensures Eval(Pad(c, n), x) == Eval(c, x)
    decreases n - |c|
  {
    if |c| < n {
      EvalPadded(c, x);
      EvalPad(c + [0], n, x);
    }
  }

  /** Interpolating the values of a short enough polynomial reproduces it everywhere. */
  lemma Lagrange(c: Poly, xs: seq<byte>, ys: seq<byte>, x: byte)
    requires Distinct(xs) && |c| <= |xs| == |ys|
    requires forall i :: 0 <= i < |xs| ==> ys[i] == Eval(c, xs[i])
    ensures Interp(xs, ys, x, |xs|) == Eval(c, x)
  {
    var p, q := Pad(c, |xs|), InterpPoly(xs, ys, |xs|);
    forall i | 0 <= i < |xs|
      ensures Eval(p, xs[i]) == Eval(q, xs[i])
    {
      EvalPad(c, |xs|, xs[i]);
      EvalInterpPoly(xs, ys, |xs|, xs[i]);
      InterpAt(xs, ys, i, |xs|);
    }
    Unique(p, q, xs);
    EvalPad(c, |xs|, x);
    EvalInterpPoly(xs, ys, |xs|, x);
  }

  lemma EvalAtZero(c: Poly)
    requires c != []
    ensures Eval(c, 0) == c[0]
  {
    Units(Eval(c[1..], 0));
    AddLaws(c[0], 0, 0);
  }
}
