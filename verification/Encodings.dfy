// Prefix-free byte codes, from which instances of the laws assumed of JSON, UTF-8 and the ciphers are built.

module Encodings {
  import opened Basics

  /** n as that many ones and a zero. */
  function Unary(n: nat): (b: Bytes)
    ensures b != []
  {
    if n == 0 then [0] else [1] + Unary(n - 1)
  }

  lemma {:induction false} UnaryPrefix(m: nat, n: nat, p: Bytes, q: Bytes)
    requires Unary(m) + p == Unary(n) + q
    ensures m == n && p == q
  {
    var s := Unary(m) + p;
    assert s[0] == Unary(m)[0] == Unary(n)[0];
    if m == 0 {
      assert s[1..] == p && s[1..] == q;
    } else {
      assert s[1..] == Unary(m - 1) + p && s[1..] == Unary(n - 1) + q;
      UnaryPrefix(m - 1, n - 1, p, q);
    }
  }

  /** A one before every character's code, and a zero at the end. */
  function TextCode(s: string): (b: Bytes)
    ensures b != []
  {
    if s == "" then [0] else [1] + (Unary(s[0] as int) + TextCode(s[1..]))
  }

  lemma {:induction false} TextPrefix(s: string, t: string, p: Bytes, q: Bytes)
    requires TextCode(s) + p == TextCode(t) + q
    ensures s == t && p == q
    decreases |s|
  {
    hide Unary;
    var x := TextCode(s) + p;
    assert x[0] == TextCode(s)[0] == TextCode(t)[0];
    if s == "" {
      assert x[1..] == p && x[1..] == q;
    } else {
      assert x[1..] == Unary(s[0] as int) + (TextCode(s[1..]) + p);
      assert x[1..] == Unary(t[0] as int) + (TextCode(t[1..]) + q);
      UnaryPrefix(s[0] as int, t[0] as int, TextCode(s[1..]) + p, TextCode(t[1..]) + q);
      TextPrefix(s[1..], t[1..], p, q);
      assert s == [s[0]] + s[1..] && t == [t[0]] + t[1..];
    }
  }

  lemma TextCodeInjective(s: string, t: string)
    requires TextCode(s) == TextCode(t)
    ensures s == t
  {
    assert TextCode(s) + [] == TextCode(t) + [];
    TextPrefix(s, t, [], []);
  }

  /** The text a code stands for. */
  ghost function TextOf(b: Bytes): Option<string> {
    if exists s :: TextCode(s) == b then (var s :| TextCode(s) == b; Some(s)) else None
  }

  lemma TextOfCode(s: string)
    ensures TextOf(TextCode(s)) == Some(s)
  {
    TextCodeInjective(s, TextOf(TextCode(s)).value);
  }
}
