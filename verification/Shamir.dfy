// Secret splitting and recombination: `Split` and `Combine` of
// sdk/account/internal/shamir/shamir.go.

module Shamir {
  import opened Basics
  import opened Entropy
  import Gf256
  import opened Polynomial

  const SHARE_OVERHEAD := 1

  /** byte(n): the abscissa of share n, counted up from zero with the wrap of a Go byte. */
  function Octet(n: nat): byte { if n == 0 then 0 else Octet(n - 1) + 1 }

  lemma Increment(b: byte)
    ensures (b + 1) as int == if b == 255 then 0 else b as int + 1
  {
  }

  lemma {:induction false} OctetValue(n: nat)
    ensures Octet(n) as int == n % 256
  {
    if n == 0 {
    } else {
      OctetValue(n - 1);
      Increment(Octet(n - 1));
      assert n % 256 == if (n - 1) % 256 == 255 then 0 else (n - 1) % 256 + 1;
    }
  }

  predicate ValidSplit(secret: Bytes, parts: int, threshold: int) {
    && secret != []
    && 2 <= threshold <= 255
    && threshold <= parts <= 255
  }

  /** The polynomial of secret byte k: its intercept and the k-th run of random bytes. */
  function Coefficients(secret: Bytes, degree: nat, random: Bytes, k: nat): (c: Poly)
    requires k < |secret| && |random| >= |secret| * degree
    ensures |c| == degree + 1 && c[0] == secret[k]
  {
    RunFits(k, |secret|, degree);
    [secret[k]] + random[k * degree..k * degree + degree]
  }

  lemma {:induction false} RunFits(k: nat, n: nat, degree: nat)
    requires k < n
    ensures k * degree + degree <= n * degree
    decreases n
  {
    assert n * degree == (n - 1) * degree + degree;
    if k < n - 1 {
      RunFits(k, n - 1, degree);
    }
  }

  /** Share number `index`: one evaluation per secret byte, then the abscissa. */
  function Share(secret: Bytes, degree: nat, random: Bytes, index: nat): (s: Bytes)
    requires |random| >= |secret| * degree
    ensures |s| == |secret| + 1
  {
    seq(|secret|, k requires 0 <= k < |secret| => Eval(Coefficients(secret, degree, random, k), Octet(index)))
    + [Octet(index)]
  }

  function Shares(secret: Bytes, parts: nat, degree: nat, random: Bytes): (s: seq<Bytes>)
    requires |random| >= |secret| * degree
    ensures |s| == parts
  {
    seq(parts, i requires 0 <= i < parts => Share(secret, degree, random, i + 1))
  }

  /** Shares filled in for the first `done` secret bytes. */
  ghost predicate Filled(out: seq<Bytes>, secret: Bytes, parts: nat, degree: nat, random: Bytes, done: nat)
    requires |random| >= |secret| * degree
  {
    && |out| == parts
    && (forall i :: 0 <= i < parts ==> |out[i]| == |secret| + 1 && out[i][|secret|] == Octet(i + 1))
    && (forall i, k :: 0 <= i < parts && 0 <= k < |secret| && k < done ==>
          out[i][k] == Eval(Coefficients(secret, degree, random, k), Octet(i + 1)))
  }

  lemma FilledIsShares(out: seq<Bytes>, secret: Bytes, parts: nat, degree: nat, random: Bytes)
    requires |random| >= |secret| * degree
    requires Filled(out, secret, parts, degree, random, |secret|)
    ensures out == Shares(secret, parts, degree, random)
  {
    forall i | 0 <= i < parts
      ensures out[i] == Share(secret, degree, random, i + 1)
    {
    }
  }

  /** The values of one polynomial at abscissas 1 .. parts, written down column k. */
  method FillColumn(shares: seq<Bytes>, k: nat, c: Poly) returns (out: seq<Bytes>)
    requires c != []
    requires forall i :: 0 <= i < |shares| ==> k < |shares[i]| - 1
    ensures |out| == |shares|
    ensures forall i :: 0 <= i < |shares| ==> out[i] == shares[i][k := Eval(c, Octet(i + 1))]
  {
    out := shares;
    for i := 0 to |shares|
      invariant |out| == |shares|
      invariant forall j :: 0 <= j < i ==> out[j] == shares[j][k := Eval(c, Octet(j + 1))]
      invariant forall j :: i <= j < |shares| ==> out[j] == shares[j]
    {
      var y := Evaluate(c, Octet(i + 1));
      out := out[i := out[i][k := y]];
    }
  }

  /** Split draws threshold-1 coefficients per secret byte and fills the shares column by column. */
  method Split(secret: Bytes, parts: int, threshold: int, random: Reader) returns (r: Option<seq<Bytes>>)
    modifies random
    ensures r.Some? <==> ValidSplit(secret, parts, threshold)
                         && |secret| * (threshold - 1) <= |old(random.stream)|
    ensures r.Some? ==> r.value == Shares(secret, parts, threshold - 1, old(random.stream))
    ensures r.Some? ==> random.stream == old(random.stream)[|secret| * (threshold - 1)..]
  {
    if secret == [] || threshold < 2 || threshold > 255 || parts < threshold || parts > 255 {
      return None;
    }
    var degree := threshold - 1;
    ghost var entropy := random.stream;
    var out := seq(parts, i requires 0 <= i < parts => seq(|secret|, _ => 0 as byte) + [Octet(i + 1)]);
    var k := 0;
    while k < |secret|
      invariant 0 <= k <= |secret|
      invariant k * degree <= |entropy| && random.stream == entropy[k * degree..]
      invariant |out| == parts
      invariant forall i :: 0 <= i < parts ==> |out[i]| == |secret| + 1 && out[i][|secret|] == Octet(i + 1)
      invariant forall i, j :: 0 <= i < parts && 0 <= j < k ==>
                  out[i][j] == Eval([secret[j]] + Run(entropy, degree, j), Octet(i + 1))
    {
      var coefficients := random.ReadFull(degree);
      RunFits(k, |secret|, degree);
      if coefficients.None? {
        return None;
      }
      assert coefficients.value == Run(entropy, degree, k);
      out := FillColumn(out, k, [secret[k]] + coefficients.value);
      assert (k + 1) * degree == k * degree + degree;
      k := k + 1;
    }
    assert Filled(out, secret, parts, degree, entropy, |secret|) by {
      forall j | 0 <= j < |secret|
        ensures [secret[j]] + Run(entropy, degree, j) == Coefficients(secret, degree, entropy, j)
      {
        RunFits(j, |secret|, degree);
      }
    }
    FilledIsShares(out, secret, parts, degree, entropy);
    return Some(out);
  }

  /** The k-th run of `degree` bytes, or nothing when the stream is too short. */
  function Run(stream: Bytes, degree: nat, k: nat): Bytes {
    if k * degree + degree <= |stream| then stream[k * degree..k * degree + degree] else []
  }

  // ---- Combine ----

  function Abscissas(parts: seq<Bytes>): (xs: Bytes)
    requires forall i :: 0 <= i < |parts| ==> parts[i] != []
    ensures |xs| == |parts|
  {
    seq(|parts|, i requires 0 <= i < |parts| => parts[i][|parts[i]| - 1])
  }

  predicate Combinable(parts: seq<Bytes>) {
    && |parts| >= 2
    && |parts[0]| >= 2
    && (forall i :: 0 <= i < |parts| ==> |parts[i]| == |parts[0]|)
    && 0 !in Abscissas(parts)
    && Distinct(Abscissas(parts))
  }

  function Column(parts: seq<Bytes>, k: nat): (ys: Bytes)
    requires forall i :: 0 <= i < |parts| ==> k < |parts[i]|
    ensures |ys| == |parts|
  {
    seq(|parts|, i requires 0 <= i < |parts| => parts[i][k])
  }

  function Combined(parts: seq<Bytes>): (secret: Bytes)
    requires Combinable(parts)
    ensures |secret| == |parts[0]| - 1
  {
    seq(|parts[0]| - 1, k requires 0 <= k < |parts[0]| - 1 => Interp(Abscissas(parts), Column(parts, k), 0, |parts|))
  }

  /** The abscissas, unless one is zero or occurs twice. */
  method ReadAbscissas(parts: seq<Bytes>) returns (r: Option<Bytes>)
    requires forall i :: 0 <= i < |parts| ==> parts[i] != []
    ensures r.Some? <==> 0 !in Abscissas(parts) && Distinct(Abscissas(parts))
    ensures r.Some? ==> r.value == Abscissas(parts)
  {
    ghost var all := Abscissas(parts);
    var xs: Bytes := [];
    var seen: set<byte> := {};
    for i := 0 to |parts|
      invariant xs == all[..i] && Distinct(xs)
      invariant forall j :: 0 <= j < i ==> all[j] != 0 && all[j] in seen
      invariant forall x :: x in seen ==> x in xs
    {
      var x := parts[i][|parts[i]| - 1];
      assert x == all[i];
      if x == 0 {
        assert all[i] == 0;
        return None;
      }
      if x in seen {
        assert x in xs;
        ghost var j :| 0 <= j < |xs| && xs[j] == x;
        assert all[j] == all[i];
        return None;
      }
      seen := seen + {x};
      xs := xs + [x];
    }
    return Some(xs);
  }

  method Combine(parts: seq<Bytes>) returns (r: Option<Bytes>)
    ensures r.Some? <==> Combinable(parts)
    ensures r.Some? ==> r.value == Combined(parts)
  {
    hide Interp;
    if |parts| < 2 || |parts[0]| < 2 {
      return None;
    }
    var partLen := |parts[0]|;
    for i := 1 to |parts|
      invariant forall j :: 0 <= j < i ==> |parts[j]| == partLen
    {
      if |parts[i]| != partLen {
        return None;
      }
    }
    var xs := ReadAbscissas(parts);
    if xs.None? {
      return None;
    }
    var secret: Bytes := [];
    for k := 0 to partLen - 1
      invariant |secret| == k
      invariant forall j :: 0 <= j < k ==> secret[j] == Combined(parts)[j]
    {
      var y := Interpolate(xs.value, Column(parts, k), 0);
      secret := secret + [y];
    }
    assert secret == Combined(parts);
    return Some(secret);
  }

  // ---- Any `threshold` shares give the secret; fewer say nothing about it ----

  /** Shares chosen by number, in any order. */
  function Chosen(all: seq<Bytes>, numbers: seq<nat>): (s: seq<Bytes>)
    requires forall i :: 0 <= i < |numbers| ==> numbers[i] < |all|
    ensures |s| == |numbers|
  {
    seq(|numbers|, i requires 0 <= i < |numbers| => all[numbers[i]])
  }

  lemma OctetsDiffer(m: nat, n: nat)
    requires 1 <= m <= 255 && 1 <= n <= 255
    ensures Octet(m) != 0
    ensures m != n ==> Octet(m) != Octet(n)
  {
    OctetValue(m);
    OctetValue(n);
  }

  predicate ValidChoice(numbers: seq<nat>, parts: nat) {
    && (forall i :: 0 <= i < |numbers| ==> numbers[i] < parts)
    && (forall i, j :: 0 <= i < j < |numbers| ==> numbers[i] != numbers[j])
  }

  lemma ChosenAbscissas(secret: Bytes, parts: nat, degree: nat, random: Bytes, numbers: seq<nat>)
    requires parts <= 255 && |random| >= |secret| * degree
    requires ValidChoice(numbers, parts)
    ensures var xs := Abscissas(Chosen(Shares(secret, parts, degree, random), numbers));
            && 0 !in xs && Distinct(xs)
            && forall i :: 0 <= i < |numbers| ==> xs[i] == Octet(numbers[i] + 1)
  {
    var xs := Abscissas(Chosen(Shares(secret, parts, degree, random), numbers));
    forall i, j | 0 <= i < |numbers| && 0 <= j < |numbers|
      ensures xs[i] == Octet(numbers[i] + 1) && xs[i] != 0 && (i < j ==> xs[i] != xs[j])
    {
      OctetsDiffer(numbers[i] + 1, numbers[j] + 1);
    }
  }

  /** Every choice of at least `threshold` different shares combines to the secret. */
  lemma SplitThenCombine(secret: Bytes, parts: nat, threshold: nat, random: Bytes, numbers: seq<nat>)
    requires ValidSplit(secret, parts, threshold) && |random| >= |secret| * (threshold - 1)
    requires |numbers| >= threshold && ValidChoice(numbers, parts)
    ensures var chosen := Chosen(Shares(secret, parts, threshold - 1, random), numbers);
            Combinable(chosen) && Combined(chosen) == secret
  {
    hide Eval, Interp, Octet;
    var chosen := Chosen(Shares(secret, parts, threshold - 1, random), numbers);
    var xs := Abscissas(chosen);
    ChosenAbscissas(secret, parts, threshold - 1, random, numbers);
    forall k | 0 <= k < |secret|
      ensures Combined(chosen)[k] == secret[k]
    {
      var c := Coefficients(secret, threshold - 1, random, k);
      Lagrange(c, xs, Column(chosen, k), 0);
      EvalAtZero(c);
    }
  }

  ghost predicate Consistent(c: Poly, xs: Bytes, ys: Bytes)
    requires |xs| == |ys|
  {
    forall i :: 0 <= i < |xs| ==> Eval(c, xs[i]) == ys[i]
  }

  /** Perfect secrecy: one share short of the threshold fits every secret byte, each in exactly one way. */
  lemma TooFewSharesSayNothing(xs: Bytes, ys: Bytes, guess: byte) returns (c: Poly)
    requires Distinct(xs) && 0 !in xs && |ys| == |xs|
    ensures |c| == |xs| + 1 && c[0] == guess && Consistent(c, xs, ys)
    ensures forall d: Poly :: |d| == |xs| + 1 && d[0] == guess && Consistent(d, xs, ys) ==> d == c
  {
    hide Eval, Interp, InterpPoly;
    var xs', ys' := [0] + xs, [guess] + ys;
    assert Distinct(xs');
    c := InterpPoly(xs', ys', |xs'|);
    forall i | 0 <= i < |xs'|
      ensures Eval(c, xs'[i]) == ys'[i]
    {
      EvalInterpPoly(xs', ys', |xs'|, xs'[i]);
      InterpAt(xs', ys', i, |xs'|);
    }
    assert forall i :: 0 <= i < |xs| ==> xs'[i + 1] == xs[i] && ys'[i + 1] == ys[i];
    assert xs'[0] == 0 && ys'[0] == guess;
    EvalAtZero(c);
    forall d: Poly | |d| == |xs| + 1 && d[0] == guess && Consistent(d, xs, ys)
      ensures d == c
    {
      EvalAtZero(d);
      forall i | 0 <= i < |xs'|
        ensures Eval(d, xs'[i]) == Eval(c, xs'[i])
      {
        if i > 0 { assert Eval(d, xs[i - 1]) == ys[i - 1]; }
      }
      Unique(d, c, xs');
    }
  }

  /** However many shares are missing, every secret byte still fits, with a polynomial of the full length. */
  lemma AnyFewerSayNothing(xs: Bytes, ys: Bytes, threshold: nat, guess: byte) returns (c: Poly)
    requires Distinct(xs) && 0 !in xs && |ys| == |xs| < threshold
    ensures |c| == threshold && c[0] == guess && Consistent(c, xs, ys)
  {
    hide Eval, Pad;
    var short := TooFewSharesSayNothing(xs, ys, guess);
    c := Pad(short, threshold);
    forall x
      ensures Eval(c, x) == Eval(short, x)
    {
      EvalPad(short, threshold, x);
    }
    EvalAtZero(c);
    EvalAtZero(short);
  }
}
