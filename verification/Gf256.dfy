// The field GF(2^8) of sdk/account/internal/shamir/shamir.go: the shift-and-add
// product, the addition-chain inverse, and the proof that they form a field.

module Gf256 {
  import opened Basics

  function Add(a: byte, b: byte): byte { a ^ b }

  lemma XorLaws(a: byte, b: byte, c: byte)
    ensures a ^ b == b ^ a && (a ^ b) ^ c == a ^ (b ^ c)
    ensures a ^ a == 0 && a ^ 0 == a == 0 ^ a
    ensures a ^ b == 0 <==> a == b
  {
  }

  lemma AddLaws(a: byte, b: byte, c: byte)
    ensures Add(a, b) == Add(b, a)
    ensures Add(Add(a, b), c) == Add(a, Add(b, c))
    ensures Add(a, a) == 0 && Add(a, 0) == a == Add(0, a)
    ensures Add(a, b) == 0 <==> a == b
  {
    XorLaws(a, b, c);
  }

  lemma AddCancelMiddle(p: byte, m: byte, q: byte)
    ensures Add(Add(p, m), Add(m, q)) == Add(p, q)
  {
    hide Add;
    AddLaws(p, m, Add(m, q));
    AddLaws(m, m, q);
    AddLaws(q, q, q);
  }

  // ---- The product as Horner's rule over the bits of the second factor ----

  /** Multiplication by x modulo x^8 + x^4 + x^3 + x + 1. */
  function XTime(r: byte): byte { (-(r >> 7) & 0x1B) ^ (r + r) }

  function Scale(bit: bool, a: byte): byte { if bit then a else 0 }

  function Step(a: byte, bit: bool, r: byte): byte { Add(Scale(bit, a), XTime(r)) }

  /** The bits of b, most significant first. */
  function Bits(b: byte): (s: seq<bool>)
    ensures |s| == 8
  {
    [b & 0x80 != 0, b & 0x40 != 0, b & 0x20 != 0, b & 0x10 != 0,
     b & 0x08 != 0, b & 0x04 != 0, b & 0x02 != 0, b & 0x01 != 0]
  }

  function Horner(a: byte, bits: seq<bool>): byte {
    if bits == [] then 0
    else Step(a, bits[|bits| - 1], Horner(a, bits[..|bits| - 1]))
  }

  function Mul(a: byte, b: byte): byte { Horner(a, Bits(b)) }

  /** One round of the source's loop is one Horner step. */
  lemma SourceRound(a: byte, bit: byte, r: byte)
    requires bit <= 1
    ensures (-bit & a) ^ (-(r >> 7) & 0x1B) ^ (r + r) == Step(a, bit == 1, r)
  {
  }

  lemma SourceBit(b: byte, bit: byte, k: nat)
    requires k < 8 && bit as int == 7 - k
    ensures (b >> bit) & 1 <= 1 && ((b >> bit) & 1 == 1) == Bits(b)[k]
  {
    if k == 0 { assert bit == 7; } else if k == 1 { assert bit == 6; } else if k == 2 { assert bit == 5; }
    else if k == 3 { assert bit == 4; } else if k == 4 { assert bit == 3; } else if k == 5 { assert bit == 2; }
    else if k == 6 { assert bit == 1; } else { assert bit == 0; }
  }

  /** The branch-free product loop of the source computes `Mul`. */
  method Mult(a: byte, b: byte) returns (r: byte)
    ensures r == Mul(a, b)
  {
    hide Step;
    r := 0;
    var i: byte := 8;
    ghost var k := 0;
    while i > 0
      invariant k <= 8 && i as int == 8 - k
      invariant r == Horner(a, Bits(b)[..k])
      decreases 8 - k
    {
      var bit := i - 1;
      assert bit as int == 7 - k;
      SourceBit(b, bit, k);
      SourceRound(a, (b >> bit) & 1, r);
      assert Bits(b)[..k + 1][..k] == Bits(b)[..k];
      r := (-((b >> bit) & 1) & a) ^ (-(r >> 7) & 0x1B) ^ (r + r);
      i := i - 1;
      k := k + 1;
    }
    assert Bits(b)[..8] == Bits(b);
  }

  // ---- Linearity of one step, lifted to the whole product ----

  // Facts about bare bit-vector expressions, stated without the functions above.

  lemma ShiftXor(r: byte, s: byte)
    ensures (-((r ^ s) >> 7) & 0x1B) ^ ((r ^ s) + (r ^ s))
         == ((-(r >> 7) & 0x1B) ^ (r + r)) ^ ((-(s >> 7) & 0x1B) ^ (s + s))
  {
  }

  lemma XTimeAdd(r: byte, s: byte)
    ensures XTime(Add(r, s)) == Add(XTime(r), XTime(s))
  {
    ShiftXor(r, s);
  }

  lemma AddFour(p: byte, q: byte, r: byte, s: byte)
    ensures Add(Add(p, q), Add(r, s)) == Add(Add(p, r), Add(q, s))
  {
    hide Add;
    AddLaws(p, q, Add(r, s));
    AddLaws(q, r, s);
    AddLaws(r, q, s);
    AddLaws(p, r, Add(q, s));
  }

  lemma XTimeZero()
    ensures XTime(0) == 0
  {
  }

  lemma StepAdd(a: byte, b: byte, bit: bool, r: byte, s: byte)
    ensures Step(Add(a, b), bit, Add(r, s)) == Add(Step(a, bit, r), Step(b, bit, s))
  {
    hide XTime, Add;
    assert Add(0, 0) == 0 by { AddLaws(0, 0, 0); }
    XTimeAdd(r, s);
    AddFour(Scale(bit, a), Scale(bit, b), XTime(r), XTime(s));
  }

  lemma StepXTime(a: byte, bit: bool, r: byte)
    ensures Step(XTime(a), bit, XTime(r)) == XTime(Step(a, bit, r))
  {
    hide XTime, Add;
    XTimeAdd(Scale(bit, a), XTime(r));
    XTimeZero();
  }

  lemma {:induction false} HornerAdd(a: byte, b: byte, bits: seq<bool>)
    ensures Horner(Add(a, b), bits) == Add(Horner(a, bits), Horner(b, bits))
  {
    hide Add, Step;
    assert Horner(Add(a, b), []) == Add(0, 0) by { AddLaws(0, 0, 0); }
    if bits == [] {
    } else {
      var m := |bits| - 1;
      HornerAdd(a, b, bits[..m]);
      StepAdd(a, b, bits[m], Horner(a, bits[..m]), Horner(b, bits[..m]));
    }
  }

  lemma {:induction false} HornerXTime(a: byte, bits: seq<bool>)
    ensures Horner(XTime(a), bits) == XTime(Horner(a, bits))
  {
    if bits == [] {
    } else {
      var m := |bits| - 1;
      HornerXTime(a, bits[..m]);
      StepXTime(a, bits[m], Horner(a, bits[..m]));
    }
  }

  lemma HornerZero(bits: seq<bool>)
    ensures Horner(0, bits) == 0
  {
    HornerAdd(0, 0, bits);
  }

  lemma MulStep(c: byte, bit: bool, r: byte, b: byte)
    ensures Mul(Step(c, bit, r), b) == Step(Mul(c, b), bit, Mul(r, b))
  {
    HornerAdd(Scale(bit, c), XTime(r), Bits(b));
    HornerXTime(r, Bits(b));
    HornerZero(Bits(b));
  }

  /** (c . bits) . b == (c . b) . bits, from which commutativity and associativity follow. */
  lemma {:induction false} Exchange(c: byte, bits: seq<bool>, b: byte)
    ensures Mul(Horner(c, bits), b) == Horner(Mul(c, b), bits)
  {
    if bits == [] {
      HornerZero(Bits(b));
    } else {
      var m := |bits| - 1;
      Exchange(c, bits[..m], b);
      MulStep(c, bits[m], Horner(c, bits[..m]), b);
    }
  }

  // ---- The same product written without recursion, for concrete bytes ----

  function Unrolled(a: byte, b: byte): byte {
    Step(a, b & 0x01 != 0, Step(a, b & 0x02 != 0, Step(a, b & 0x04 != 0, Step(a, b & 0x08 != 0,
    Step(a, b & 0x10 != 0, Step(a, b & 0x20 != 0, Step(a, b & 0x40 != 0, Step(a, b & 0x80 != 0, 0))))))))
  }

  lemma HornerSnoc(a: byte, bits: seq<bool>, bit: bool)
    ensures Horner(a, bits + [bit]) == Step(a, bit, Horner(a, bits))
  {
    hide Step;
    assert (bits + [bit])[..|bits|] == bits;
  }

  lemma HornerTake(a: byte, s: seq<bool>, k: nat)
    requires k < |s|
    ensures Horner(a, s[..k + 1]) == Step(a, s[k], Horner(a, s[..k]))
  {
    hide Step;
    assert s[..k + 1] == s[..k] + [s[k]];
    HornerSnoc(a, s[..k], s[k]);
  }

  lemma HornerOfEight(a: byte, s: seq<bool>)
    requires |s| == 8
    ensures Horner(a, s) == Step(a, s[7], Step(a, s[6], Step(a, s[5], Step(a, s[4],
                            Step(a, s[3], Step(a, s[2], Step(a, s[1], Step(a, s[0], 0))))))))
  {
    hide Step, Bits;
    HornerTake(a, s, 0);
    HornerTake(a, s, 1);
    HornerTake(a, s, 2);
    HornerTake(a, s, 3);
    HornerTake(a, s, 4);
    HornerTake(a, s, 5);
    HornerTake(a, s, 6);
    HornerTake(a, s, 7);
    assert s[..0] == [];
    assert s[..8] == s;
  }

  lemma MulUnrolled(a: byte, b: byte)
    ensures Mul(a, b) == Unrolled(a, b)
  {
    hide Step;
    HornerOfEight(a, Bits(b));
  }

  lemma OneTimes(b: byte)
    ensures Mul(1, b) == b
  {
    MulUnrolled(1, b);
  }

  // ---- Ring laws ----

  lemma Comm(a: byte, b: byte)
    ensures Mul(a, b) == Mul(b, a)
  {
    Exchange(1, Bits(a), b);
    OneTimes(a);
    OneTimes(b);
  }

  lemma Assoc(a: byte, b: byte, c: byte)
    ensures Mul(Mul(a, b), c) == Mul(a, Mul(b, c))
  {
    Comm(a, b);
    Exchange(b, Bits(a), c);
    Comm(Mul(b, c), a);
  }

  lemma Distrib(a: byte, b: byte, c: byte)
    ensures Mul(Add(a, b), c) == Add(Mul(a, c), Mul(b, c))
    ensures Mul(c, Add(a, b)) == Add(Mul(c, a), Mul(c, b))
  {
    hide Add, Horner;
    HornerAdd(a, b, Bits(c));
    Comm(c, Add(a, b));
    Comm(c, a);
    Comm(c, b);
  }

  lemma Units(a: byte)
    ensures Mul(1, a) == a == Mul(a, 1)
    ensures Mul(0, a) == 0 == Mul(a, 0)
  {
    OneTimes(a);
    Comm(1, a);
    HornerZero(Bits(a));
    Comm(0, a);
  }

  // ---- The inverse: a^254 by the source's addition chain ----

  function Inverse(a: byte): byte {
    var b := Mul(a, a);
    var c := Mul(a, b);
    var b := Mul(c, c);
    var b := Mul(b, b);
    var c := Mul(b, c);
    var b := Mul(b, b);
    var b := Mul(b, b);
    var b := Mul(b, c);
    var b := Mul(b, b);
    var b := Mul(a, b);
    Mul(b, b)
  }

  function Pow(a: byte, n: nat): byte { if n == 0 then 1 else Mul(a, Pow(a, n - 1)) }

  lemma {:induction false} PowAdd(a: byte, m: nat, n: nat)
    ensures Mul(Pow(a, m), Pow(a, n)) == Pow(a, m + n)
  {
    hide Mul;
    if m == 0 {
      OneTimes(Pow(a, n));
    } else {
      PowAdd(a, m - 1, n);
      Assoc(a, Pow(a, m - 1), Pow(a, n));
    }
  }

  lemma PowOne(a: byte)
    ensures Pow(a, 1) == a
  {
    Units(a);
  }

  lemma InverseIsPow(a: byte)
    ensures Inverse(a) == Pow(a, 254)
  {
    hide Mul;
    PowOne(a);
    PowAdd(a, 1, 1);
    PowAdd(a, 1, 2);
    PowAdd(a, 3, 3);
    PowAdd(a, 6, 6);
    PowAdd(a, 12, 3);
    PowAdd(a, 12, 12);
    PowAdd(a, 24, 24);
    PowAdd(a, 48, 15);
    PowAdd(a, 63, 63);
    PowAdd(a, 1, 126);
    PowAdd(a, 127, 127);
  }

  /** Squaring n times: the n-th power of the Frobenius map. */
  function Frobenius(a: byte, n: nat): byte {
    if n == 0 then a else var s := Frobenius(a, n - 1); Mul(s, s)
  }

  function TwoTo(n: nat): nat { if n == 0 then 1 else 2 * TwoTo(n - 1) }

  lemma {:induction false} FrobeniusIsPow(a: byte, n: nat)
    ensures Frobenius(a, n) == Pow(a, TwoTo(n))
  {
    hide Mul;
    if n == 0 {
      PowOne(a);
    } else {
      FrobeniusIsPow(a, n - 1);
      PowAdd(a, TwoTo(n - 1), TwoTo(n - 1));
    }
  }

  lemma {:induction false} FrobeniusAdd(a: byte, b: byte, n: nat)
    ensures Frobenius(Add(a, b), n) == Add(Frobenius(a, n), Frobenius(b, n))
  {
    hide Add, Mul;
    if n == 0 {
    } else {
      FrobeniusAdd(a, b, n - 1);
      var s, t := Frobenius(a, n - 1), Frobenius(b, n - 1);
      Distrib(s, t, Add(s, t));
      Distrib(s, t, s);
      Distrib(s, t, t);
      Comm(s, t);
      AddCancelMiddle(Mul(s, s), Mul(s, t), Mul(t, t));
    }
  }

  lemma {:induction false} FrobeniusMul(a: byte, b: byte, n: nat)
    ensures Frobenius(Mul(a, b), n) == Mul(Frobenius(a, n), Frobenius(b, n))
  {
    if n == 0 {
    } else {
      FrobeniusMul(a, b, n - 1);
      var s, t := Frobenius(a, n - 1), Frobenius(b, n - 1);
      Assoc(s, t, Mul(s, t));
      Comm(t, Mul(s, t));
      Assoc(s, t, t);
      Assoc(s, s, Mul(t, t));
    }
  }

  lemma XTimeIsTwo(a: byte)
    ensures XTime(a) == Mul(2, a)
  {
    HornerXTime(1, Bits(a));
    OneTimes(a);
    assert XTime(1) == 2;
  }

  /** Eight squarings of 2, along the chain 2, 4, 10, 1B, 5E, E4, 4D, FA, 2 (hexadecimal). */
  lemma SquaresOfTwo()
    ensures Mul(2, 2) == 4 && Mul(4, 4) == 0x10 && Mul(0x10, 0x10) == 0x1B && Mul(0x1B, 0x1B) == 0x5E
    ensures Mul(0x5E, 0x5E) == 0xE4 && Mul(0xE4, 0xE4) == 0x4D && Mul(0x4D, 0x4D) == 0xFA && Mul(0xFA, 0xFA) == 2
  {
    hide Mul;
    MulUnrolled(2, 2);
    MulUnrolled(4, 4);
    MulUnrolled(0x10, 0x10);
    MulUnrolled(0x1B, 0x1B);
    MulUnrolled(0x5E, 0x5E);
    MulUnrolled(0xE4, 0xE4);
    MulUnrolled(0x4D, 0x4D);
    MulUnrolled(0xFA, 0xFA);
  }

  lemma FrobeniusConstants()
    ensures Frobenius(1, 8) == 1 && Frobenius(2, 8) == 2 && Frobenius(0, 8) == 0
  {
    hide Mul;
    SquaresOfTwo();
    Units(1);
    Units(0);
  }

  lemma FrobeniusStep(bit: bool, r: byte)
    requires Frobenius(r, 8) == r
    ensures Frobenius(Step(1, bit, r), 8) == Step(1, bit, r)
  {
    hide Mul, Frobenius, Add, XTime;
    FrobeniusConstants();
    FrobeniusAdd(Scale(bit, 1), XTime(r), 8);
    XTimeIsTwo(r);
    FrobeniusMul(2, r, 8);
  }

  lemma {:induction false} FrobeniusFixes(bits: seq<bool>)
    ensures Frobenius(Horner(1, bits), 8) == Horner(1, bits)
  {
    hide Frobenius, Step;
    if bits == [] {
      FrobeniusConstants();
    } else {
      var m := |bits| - 1;
      FrobeniusFixes(bits[..m]);
      FrobeniusStep(bits[m], Horner(1, bits[..m]));
    }
  }

  /** a^256 == a for every byte. */
  lemma FermatLittle(a: byte)
    ensures Pow(a, 256) == a
  {
    hide Pow, Frobenius, Horner;
    assert Mul(1, a) == Horner(1, Bits(a));
    FrobeniusFixes(Bits(a));
    OneTimes(a);
    FrobeniusIsPow(a, 8);
    assert TwoTo(8) == 256;
  }

  lemma IdempotentIsBit(x: byte)
    requires Unrolled(x, x) == x
    ensures x <= 1
  {
  }

  /** The addition chain inverts every non-zero byte. */
  lemma InverseLaw(a: byte)
    ensures a != 0 ==> Mul(a, Inverse(a)) == 1
  {
    hide Mul, Inverse, Unrolled;
    InverseIsPow(a);
    FermatLittle(a);
    var n := Pow(a, 255);
    assert n == Mul(a, Pow(a, 254));
    assert Pow(a, 256) == Mul(a, n);
    PowAdd(a, 256, 254);
    PowAdd(a, 255, 255);
    assert Mul(n, n) == Mul(a, Pow(a, 254)) == n;
    MulUnrolled(n, n);
    IdempotentIsBit(n);
    Units(a);
  }

  /** Division as the source writes it; it panics only when b is zero. */
  function Div(a: byte, b: byte): byte
    requires b != 0
  {
    if a == 0 then 0 else Mul(a, Inverse(b))
  }

  lemma DivLaw(a: byte, b: byte)
    requires b != 0
    ensures Mul(Div(a, b), b) == a && Div(a, b) == Mul(a, Inverse(b))
  {
    InverseLaw(b);
    Units(Inverse(b));
    Units(b);
    Units(a);
    Assoc(a, Inverse(b), b);
    Comm(Inverse(b), b);
  }

  lemma NoZeroDivisors(a: byte, b: byte)
    requires Mul(a, b) == 0
    ensures a == 0 || b == 0
  {
    if a != 0 {
      InverseLaw(a);
      Comm(a, Inverse(a));
      Assoc(Inverse(a), a, b);
      Units(b);
      Units(Inverse(a));
    }
  }
}
