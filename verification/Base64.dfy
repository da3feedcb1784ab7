// The base64 alphabets of RFC 4648 sections 4 and 5, the platform decoders the
// source relies on (Go's RawURLEncoding, the browser's btoa and atob), and the
// byte codec of pwa/utils/biometricCredentials.ts built from them.

module Base64 {
  import opened Basics

  // ---- Octets and sextets as numbers ----

  predicate AllBelow(v: seq<nat>, bound: nat) { forall i :: 0 <= i < |v| ==> v[i] < bound }

  function High6(a: nat): nat { a / 4 }
  function Low2High4(a: nat, b: nat): nat { a % 4 * 16 + b / 16 }
  function Low4High2(b: nat, c: nat): nat { b % 16 * 4 + c / 64 }
  function Low6(c: nat): nat { c % 64 }

  function First(p: nat, q: nat): nat { p * 4 + q / 16 }
  function Second(q: nat, r: nat): nat { q % 16 * 16 + r / 4 }
  function Third(r: nat, t: nat): nat { r % 4 * 64 + t }

  /** Regroup octets into sextets, the last group zero-filled and unpadded. */
  function Sextets(c: seq<nat>): seq<nat> {
    if c == [] then []
    else if |c| == 1 then [High6(c[0]), Low2High4(c[0], 0)]
    else if |c| == 2 then [High6(c[0]), Low2High4(c[0], c[1]), Low4High2(c[1], 0)]
    else [High6(c[0]), Low2High4(c[0], c[1]), Low4High2(c[1], c[2]), Low6(c[2])] + Sextets(c[3..])
  }

  /** Regroup sextets into octets, discarding left-over bits. */
  function Octets(s: seq<nat>): seq<nat> {
    if |s| < 2 then []
    else if |s| == 2 then [First(s[0], s[1])]
    else if |s| == 3 then [First(s[0], s[1]), Second(s[1], s[2])]
    else [First(s[0], s[1]), Second(s[1], s[2]), Third(s[2], s[3])] + Octets(s[4..])
  }

  lemma GroupRoundTrip(a: nat, b: nat, c: nat)
    requires a < 256 && b < 256 && c < 256
    ensures High6(a) < 64 && Low2High4(a, b) < 64 && Low4High2(b, c) < 64 && Low6(c) < 64
    ensures First(High6(a), Low2High4(a, b)) == a
    ensures Second(Low2High4(a, b), Low4High2(b, c)) == b
    ensures Third(Low4High2(b, c), Low6(c)) == c
  {
    assert Low2High4(a, b) / 16 == a % 4 && Low2High4(a, b) % 16 == b / 16;
    assert Low4High2(b, c) / 4 == b % 16 && Low4High2(b, c) % 4 == c / 64;
  }

  /** Length of the encoding of n octets. */
  function SextetCount(n: nat): nat { n / 3 * 4 + (if n % 3 == 0 then 0 else n % 3 + 1) }

  lemma {:induction false} SextetLength(c: seq<nat>)
    ensures |Sextets(c)| == SextetCount(|c|)
  {
    if |c| >= 3 {
      SextetLength(c[3..]);
      assert |c| / 3 == (|c| - 3) / 3 + 1 && |c| % 3 == (|c| - 3) % 3;
    }
  }

  lemma SextetCountValues(n: nat)
    ensures SextetCount(n) % 4 != 1
    ensures n > 0 ==> SextetCount(n) >= 2
  {
  }

  lemma {:induction false} SextetRoundTrip(c: seq<nat>)
    requires AllBelow(c, 256)
    ensures AllBelow(Sextets(c), 64) && Octets(Sextets(c)) == c
    ensures |Sextets(c)| == SextetCount(|c|)
  {
    hide High6, Low2High4, Low4High2, Low6, First, Second, Third, SextetCount;
    SextetLength(c);
    if |c| >= 3 {
      SextetRoundTrip(c[3..]);
      GroupRoundTrip(c[0], c[1], c[2]);
      var head := [High6(c[0]), Low2High4(c[0], c[1]), Low4High2(c[1], c[2]), Low6(c[2])];
      assert (head + Sextets(c[3..]))[4..] == Sextets(c[3..]);
      assert c == [c[0], c[1], c[2]] + c[3..];
    } else if |c| == 2 {
      GroupRoundTrip(c[0], c[1], 0);
    } else if |c| == 1 {
      GroupRoundTrip(c[0], 0, 0);
    }
  }

  // ---- Alphabets ----

  datatype Alphabet = Standard | UrlSafe

  function Letter(a: Alphabet, v: nat): (c: char)
    requires v < 64
  {
    if v < 26 then ('A' as int + v) as char
    else if v < 52 then ('a' as int + v - 26) as char
    else if v < 62 then ('0' as int + v - 52) as char
    else if v == 62 then (if a.Standard? then '+' else '-')
    else if a.Standard? then '/' else '_'
  }

  function Value(a: Alphabet, c: char): (v: Option<nat>)
    ensures v.Some? ==> v.value < 64
  {
    if 'A' <= c <= 'Z' then Some(c as int - 'A' as int)
    else if 'a' <= c <= 'z' then Some(c as int - 'a' as int + 26)
    else if '0' <= c <= '9' then Some(c as int - '0' as int + 52)
    else if c == Letter(a, 62) then Some(62)
    else if c == Letter(a, 63) then Some(63)
    else None
  }

  lemma ValueOfLetter(a: Alphabet, v: nat)
    requires v < 64
    ensures Value(a, Letter(a, v)) == Some(v)
    ensures Letter(a, v) !in {'=', ' ', '\t', '\n', '\U{0C}', '\r'}
  {
  }

  function Letters(a: Alphabet, s: seq<nat>): (t: string)
    requires AllBelow(s, 64)
    ensures |t| == |s|
  {
    seq(|s|, i requires 0 <= i < |s| => Letter(a, s[i]))
  }

  predicate InAlphabet(a: Alphabet, t: string) { forall i :: 0 <= i < |t| ==> Value(a, t[i]).Some? }

  function Values(a: Alphabet, t: string): (s: seq<nat>)
    requires InAlphabet(a, t)
    ensures |s| == |t| && AllBelow(s, 64)
  {
    seq(|t|, i requires 0 <= i < |t| => Value(a, t[i]).value)
  }

  lemma ValuesOfLetters(a: Alphabet, s: seq<nat>)
    requires AllBelow(s, 64)
    ensures InAlphabet(a, Letters(a, s)) && Values(a, Letters(a, s)) == s
  {
    forall i | 0 <= i < |s|
      ensures Value(a, Letters(a, s)[i]) == Some(s[i])
    {
      ValueOfLetter(a, s[i]);
    }
  }

  const UPPER := "ABCDEFGHIJKLMNOPQRSTUVWXYZ"
  const LOWER := "abcdefghijklmnopqrstuvwxyz"
  const DIGITS := "0123456789"

  /** The alphabets of sections 4 and 5 of RFC 4648, letter by letter. */
  lemma LettersInOrder(a: Alphabet, v: nat)
    requires v < 64
    ensures Letter(a, v) == (UPPER + LOWER + DIGITS + if a.Standard? then "+/" else "-_")[v]
  {
    hide UPPER, LOWER, DIGITS;
    assert |UPPER| == |LOWER| == 26 && |DIGITS| == 10 by { Sizes(); }
    if v < 26 {
      UpperAt(v);
    } else if v < 52 {
      LowerAt(v - 26);
    } else if v < 62 {
      DigitAt(v - 52);
    }
  }

  lemma Sizes()
    ensures |UPPER| == |LOWER| == 26 && |DIGITS| == 10
  {
  }

  lemma UpperAt(v: nat)
    requires v < 26
    ensures UPPER[v] as int == 'A' as int + v
  {
  }

  lemma LowerAt(v: nat)
    requires v < 26
    ensures LOWER[v] as int == 'a' as int + v
  {
  }

  lemma DigitAt(v: nat)
    requires v < 10
    ensures DIGITS[v] as int == '0' as int + v
  {
  }

  /** Four letters spell the number that three octets do, base 64 and base 256, high digit first. */
  lemma GroupSpells(c: seq<nat>)
    requires |c| >= 3 && AllBelow(c, 256)
    ensures var s := Sextets(c);
            && |s| >= 4 && s[4..] == Sextets(c[3..])
            && s[0] * 0x4_0000 + s[1] * 0x1000 + s[2] * 0x40 + s[3] == c[0] * 0x1_0000 + c[1] * 0x100 + c[2]
  {
    hide High6, Low2High4, Low4High2, Low6;
    var head := [High6(c[0]), Low2High4(c[0], c[1]), Low4High2(c[1], c[2]), Low6(c[2])];
    assert Sextets(c) == head + Sextets(c[3..]);
    GroupValue(c[0], c[1], c[2]);
  }

  lemma GroupValue(a: nat, b: nat, c: nat)
    requires a < 256 && b < 256 && c < 256
    ensures High6(a) * 0x4_0000 + Low2High4(a, b) * 0x1000 + Low4High2(b, c) * 0x40 + Low6(c)
         == a * 0x1_0000 + b * 0x100 + c
  {
  }

  /** A last group of one or two octets spells itself with zero bits after it. */
  lemma TailSpells(c: seq<nat>)
    requires 0 < |c| < 3 && AllBelow(c, 256)
    ensures var s := Sextets(c);
            if |c| == 1 then |s| == 2 && s[0] * 0x40 + s[1] == c[0] * 0x10
            else |s| == 3 && s[0] * 0x1000 + s[1] * 0x40 + s[2] == (c[0] * 0x100 + c[1]) * 4
  {
  }

  // ---- Bytes as numbers ----

  lemma ByteBound(b: byte)
    ensures 0 <= b as int < 256 && (b as int) as byte == b
  {
  }

  function Codes(bytes: Bytes): (c: seq<nat>)
    ensures |c| == |bytes|
  {
    seq(|bytes|, i requires 0 <= i < |bytes| => bytes[i] as int)
  }

  function ByteOf(n: nat): byte { if n < 256 then n as byte else 0 }

  function FromCodes(c: seq<nat>): (bytes: Bytes)
    ensures |bytes| == |c|
  {
    seq(|c|, i requires 0 <= i < |c| => ByteOf(c[i]))
  }

  lemma CodesRoundTrip(bytes: Bytes)
    ensures AllBelow(Codes(bytes), 256) && FromCodes(Codes(bytes)) == bytes
  {
    forall i | 0 <= i < |bytes|
      ensures Codes(bytes)[i] < 256 && ByteOf(Codes(bytes)[i]) == bytes[i]
    {
      ByteBound(bytes[i]);
    }
  }

  // ---- Go's base64.RawURLEncoding ----

  function RawUrlEncode(bytes: Bytes): (t: string)
    ensures bytes != [] ==> t != ""
  {
    CodesRoundTrip(bytes);
    SextetRoundTrip(Codes(bytes));
    SextetCountValues(|bytes|);
    Letters(UrlSafe, Sextets(Codes(bytes)))
  }

  /** Line breaks are skipped by the decoder wherever they stand. */
  function WithoutLineBreaks(t: string): string {
    if t == "" then ""
    else (if t[0] in {'\r', '\n'} then "" else [t[0]]) + WithoutLineBreaks(t[1..])
  }

  function RawUrlDecode(text: string): Option<Bytes> {
    var t := WithoutLineBreaks(text);
    if InAlphabet(UrlSafe, t) && |t| % 4 != 1 then Some(FromCodes(Octets(Values(UrlSafe, t)))) else None
  }

  lemma {:induction false} NoLineBreaks(t: string)
    requires InAlphabet(UrlSafe, t)
    ensures WithoutLineBreaks(t) == t
  {
    if t == "" {
    } else {
      NoLineBreaks(t[1..]);
      assert Value(UrlSafe, t[0]).Some?;
    }
  }

  lemma EncodedInAlphabet(bytes: Bytes)
    ensures InAlphabet(UrlSafe, RawUrlEncode(bytes))
    ensures |RawUrlEncode(bytes)| % 4 != 1
  {
    CodesRoundTrip(bytes);
    SextetRoundTrip(Codes(bytes));
    SextetCountValues(|bytes|);
    ValuesOfLetters(UrlSafe, Sextets(Codes(bytes)));
  }

  /** Decoding inverts the unpadded URL-safe encoding, for byte strings of every length. */
  lemma RawUrlRoundTrip(bytes: Bytes)
    ensures RawUrlDecode(RawUrlEncode(bytes)) == Some(bytes)
  {
    CodesRoundTrip(bytes);
    SextetRoundTrip(Codes(bytes));
    SextetCountValues(|bytes|);
    ValuesOfLetters(UrlSafe, Sextets(Codes(bytes)));
    NoLineBreaks(RawUrlEncode(bytes));
  }

  // ---- The browser's btoa and atob ----

  function CharCodes(binary: string): (c: seq<nat>)
    ensures |c| == |binary|
  {
    seq(|binary|, i requires 0 <= i < |binary| => binary[i] as int)
  }

  function Equals(n: nat): (t: string)
    ensures |t| == n && forall i :: 0 <= i < n ==> t[i] == '='
  {
    seq(n, _ => '=')
  }

  function PadCount(n: nat): nat { (3 - n % 3) % 3 }

  /** btoa throws on a character above U+00FF. */
  function Btoa(binary: string): Option<string> {
    var c := CharCodes(binary);
    if AllBelow(c, 256) then
      SextetRoundTrip(c);
      Some(Letters(Standard, Sextets(c)) + Equals(PadCount(|c|)))
    else None
  }

  function WithoutSpace(t: string): string {
    if t == "" then ""
    else (if t[0] in {' ', '\t', '\n', '\U{0C}', '\r'} then "" else [t[0]]) + WithoutSpace(t[1..])
  }

  /** Up to two trailing pad characters are dropped when the length is a multiple of four. */
  function Unpadded(t: string): string {
    if |t| % 4 != 0 || |t| == 0 || t[|t| - 1] != '=' then t
    else if t[|t| - 2] == '=' then t[..|t| - 2]
    else t[..|t| - 1]
  }

  /** The forgiving decoder behind atob; None stands for the exception. */
  function Atob(text: string): Option<string> {
    var t := Unpadded(WithoutSpace(text));
    if |t| % 4 == 1 || !InAlphabet(Standard, t) then None
    else Some(BinaryOf(Octets(Values(Standard, t))))
  }

  function BinaryOf(c: seq<nat>): (s: string)
    ensures |s| == |c|
  {
    seq(|c|, i requires 0 <= i < |c| => if c[i] < 256 then c[i] as char else '?')
  }
}
