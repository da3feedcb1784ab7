// toBase64Url and fromBase64Url of pwa/utils/biometricCredentials.ts.

module Base64Url {
  import opened Basics
  import opened Base64

  function Replaced(t: string, from: char, to: char): (r: string)
    ensures |r| == |t|
  {
    seq(|t|, i requires 0 <= i < |t| => if t[i] == from then to else t[i])
  }

  function WithoutTrailingEquals(t: string): string {
    if t != "" && t[|t| - 1] == '=' then WithoutTrailingEquals(t[..|t| - 1]) else t
  }

  /** The characters String.fromCharCode gives for the bytes. */
  function Binary(bytes: Bytes): (s: string)
    ensures |s| == |bytes|
  {
    seq(|bytes|, i requires 0 <= i < |bytes| => (bytes[i] as int) as char)
  }

  lemma BinaryCodes(bytes: Bytes)
    ensures CharCodes(Binary(bytes)) == Codes(bytes) && AllBelow(Codes(bytes), 256)
    ensures BinaryOf(Codes(bytes)) == Binary(bytes)
  {
    CodesRoundTrip(bytes);
  }

  lemma {:induction false} StripEquals(t: string, n: nat)
    requires forall i :: 0 <= i < |t| ==> t[i] != '='
    ensures WithoutTrailingEquals(t + Equals(n)) == t
  {
    if n == 0 {
      assert t + Equals(0) == t;
    } else {
      assert (t + Equals(n))[..|t| + n - 1] == t + Equals(n - 1);
      StripEquals(t, n - 1);
    }
  }

  lemma SwapLetters(s: seq<nat>)
    requires AllBelow(s, 64)
    ensures Replaced(Replaced(Letters(Standard, s), '+', '-'), '/', '_') == Letters(UrlSafe, s)
    ensures Replaced(Replaced(Letters(UrlSafe, s), '-', '+'), '_', '/') == Letters(Standard, s)
  {
  }

  /** Swapping the alphabet and stripping the padding of btoa's output leaves the URL-safe form. */
  lemma Trimmed(s: seq<nat>, pad: nat)
    requires AllBelow(s, 64)
    ensures WithoutTrailingEquals(Replaced(Replaced(Letters(Standard, s) + Equals(pad), '+', '-'), '/', '_'))
         == Letters(UrlSafe, s)
  {
    SwapLetters(s);
    assert Replaced(Replaced(Letters(Standard, s) + Equals(pad), '+', '-'), '/', '_')
        == Letters(UrlSafe, s) + Equals(pad);
    forall i | 0 <= i < |s|
      ensures Letters(UrlSafe, s)[i] != '='
    {
      ValueOfLetter(UrlSafe, s[i]);
    }
    StripEquals(Letters(UrlSafe, s), pad);
  }

  /** Collect the bytes into a binary string, encode, swap the alphabet and strip the padding. */
  method ToBase64Url(bytes: Bytes) returns (r: string)
    ensures r == RawUrlEncode(bytes)
  {
    hide SextetCount, Letter;
    var binary := "";
    for i := 0 to |bytes|
      invariant |binary| == i
      invariant forall j :: 0 <= j < i ==> binary[j] == Binary(bytes)[j]
    {
      binary := binary + [(bytes[i] as int) as char];
    }
    assert binary == Binary(bytes);
    BinaryCodes(bytes);
    SextetRoundTrip(Codes(bytes));
    var encoded := Btoa(binary).value;
    Trimmed(Sextets(Codes(bytes)), PadCount(|bytes|));
    r := WithoutTrailingEquals(Replaced(Replaced(encoded, '+', '-'), '/', '_'));
  }

  function PadLength(n: nat): nat { (4 - n % 4) % 4 }

  /** What the decoder computes before the byte copy: None when atob throws. */
  function Decoded(value: string): Option<string> {
    var base64 := Replaced(Replaced(value, '-', '+'), '_', '/');
    Atob(base64 + Equals(PadLength(|base64|)))
  }

  method FromBase64Url(value: string) returns (r: Option<array<byte>>)
    ensures r.Some? <==> Decoded(value).Some?
    ensures r.Some? ==> fresh(r.value) && r.value[..] == FromCodes(CharCodes(Decoded(value).value))
  {
    var base64 := Replaced(Replaced(value, '-', '+'), '_', '/');
    var padded := base64 + Equals(PadLength(|base64|));
    var binary := Atob(padded);
    if binary.None? {
      return None;
    }
    var bytes := new byte[|binary.value|];
    var i := 0;
    while i < |binary.value|
      invariant 0 <= i <= bytes.Length
      invariant bytes[..i] == FromCodes(CharCodes(binary.value))[..i]
    {
      bytes[i] := ByteOf(binary.value[i] as int);
      i := i + 1;
    }
    assert bytes[..] == bytes[..i];
    return Some(bytes);
  }

  lemma {:induction false} NoSpace(t: string)
    requires forall i :: 0 <= i < |t| ==> t[i] !in {' ', '\t', '\n', '\U{0C}', '\r'}
    ensures WithoutSpace(t) == t
  {
    if t == "" {
    } else {
      NoSpace(t[1..]);
    }
  }

  /** Dropping the padding gives back exactly the text that was padded to a multiple of four. */
  lemma PaddingRestored(t: string)
    requires |t| % 4 != 1
    requires forall i :: 0 <= i < |t| ==> t[i] != '='
    ensures Unpadded(t + Equals(PadLength(|t|))) == t
  {
    var n := PadLength(|t|);
    var p := t + Equals(n);
    PadLengthValues(|t|);
    assert p[..|t|] == t;
    if n == 0 {
      assert p == t;
    } else if n == 1 {
      assert p[|p| - 2] == t[|t| - 1];
    }
  }

  lemma PadLengthValues(n: nat)
    ensures (n + PadLength(n)) % 4 == 0
    ensures PadLength(n) == if n % 4 == 0 then 0 else 4 - n % 4
  {
    var q, r := n / 4, n % 4;
    RemainderPads(r);
    assert n + PadLength(n) == 4 * (if r == 0 then q else q + 1);
    FourTimes(if r == 0 then q else q + 1);
  }

  lemma RemainderPads(r: nat)
    requires r < 4
    ensures (4 - r) % 4 == if r == 0 then 0 else 4 - r
  {
    if r == 0 {
      assert (4 - 0) % 4 == 0;
    }
  }

  lemma FourTimes(q: nat)
    ensures 4 * q % 4 == 0
  {
  }

  /** fromBase64Url inverts toBase64Url, for byte arrays of every length. */
  lemma UrlRoundTrip(bytes: Bytes)
    ensures Decoded(RawUrlEncode(bytes)) == Some(Binary(bytes))
    ensures FromCodes(CharCodes(Binary(bytes))) == bytes
  {
    hide Letter, SextetCount, Octets, Value;
    BinaryCodes(bytes);
    CodesRoundTrip(bytes);
    SextetCountValues(|bytes|);
    var s := Sextets(Codes(bytes));
    SextetRoundTrip(Codes(bytes));
    SwapLetters(s);
    var t := Letters(Standard, s);
    forall i | 0 <= i < |s|
      ensures t[i] !in {'=', ' ', '\t', '\n', '\U{0C}', '\r'}
    {
      ValueOfLetter(Standard, s[i]);
    }
    PaddingRestored(t);
    NoSpace(t + Equals(PadLength(|t|)));
    ValuesOfLetters(Standard, s);
  }

  /** An encoding, copied through a decoding, in the form the credential manager uses them. */
  method EncodeThenDecode(bytes: Bytes) returns (r: Option<array<byte>>)
    ensures r.Some? && fresh(r.value) && r.value[..] == bytes
  {
    var text := ToBase64Url(bytes);
    r := FromBase64Url(text);
    UrlRoundTrip(bytes);
  }
}
