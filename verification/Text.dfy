// Go string helpers used by sdk/account: strings.Fields, TrimSpace, hex, %d and
// the '|'-joined associated data.

module Text {
  import opened Basics

  // ---- White space (unicode.IsSpace) ----

  predicate IsSpace(c: char) {
    || c in {' ', '\t', '\n', '\r', '\U{0B}', '\U{0C}', '\U{85}', '\U{A0}', '\U{1680}'}
    || '\U{2000}' <= c <= '\U{200A}'
    || c in {'\U{2028}', '\U{2029}', '\U{202F}', '\U{205F}', '\U{3000}'}
  }

  /** The longest prefix without white space. */
  function Word(s: string): (w: string)
    ensures |w| <= |s| && s[..|w|] == w
    ensures forall i :: 0 <= i < |w| ==> !IsSpace(w[i])
    ensures |w| < |s| ==> IsSpace(s[|w|])
  {
    if s == "" || IsSpace(s[0]) then "" else [s[0]] + Word(s[1..])
  }

  function Fields(s: string): (ws: seq<string>)
    decreases |s|
  {
    if s == "" then []
    else if IsSpace(s[0]) then Fields(s[1..])
    else [Word(s)] + Fields(s[|Word(s)|..])
  }

  function Joined(ws: seq<string>): string {
    if ws == [] then "" else if |ws| == 1 then ws[0] else ws[0] + " " + Joined(ws[1..])
  }

  function TrimLeft(s: string): string { if s != "" && IsSpace(s[0]) then TrimLeft(s[1..]) else s }

  function TrimRight(s: string): string {
    if s != "" && IsSpace(s[|s| - 1]) then TrimRight(s[..|s| - 1]) else s
  }

  function TrimSpace(s: string): string { TrimRight(TrimLeft(s)) }

  function NormalizeSpace(s: string): string { Joined(Fields(TrimSpace(s))) }

  predicate Clean(w: string) { w != "" && forall i :: 0 <= i < |w| ==> !IsSpace(w[i]) }

  predicate AllClean(ws: seq<string>) { forall i :: 0 <= i < |ws| ==> Clean(ws[i]) }

  lemma {:induction false} FieldsClean(s: string)
    ensures AllClean(Fields(s))
    decreases |s|
  {
    if s == "" {
    } else {
      if IsSpace(s[0]) {
        FieldsClean(s[1..]);
      } else {
        FieldsClean(s[|Word(s)|..]);
      }
    }
  }

  lemma {:induction false} WordThenRest(w: string, rest: string)
    requires forall i :: 0 <= i < |w| ==> !IsSpace(w[i])
    requires rest != "" ==> IsSpace(rest[0])
    ensures Word(w + rest) == w
  {
    hide IsSpace;
    if w == "" {
      assert w + rest == rest;
    } else {
      assert (w + rest)[1..] == w[1..] + rest;
      WordThenRest(w[1..], rest);
    }
  }

  lemma {:induction false} FieldsOfJoined(ws: seq<string>)
    requires AllClean(ws)
    ensures Fields(Joined(ws)) == ws
  {
    if ws == [] {
    } else {
      var rest := if |ws| == 1 then "" else " " + Joined(ws[1..]);
      var s := ws[0] + rest;
      assert Joined(ws) == s;
      WordThenRest(ws[0], rest);
      assert s[0] == ws[0][0];
      assert s[|ws[0]|..] == rest;
      FieldsOfJoined(ws[1..]);
      if |ws| > 1 {
        assert rest[1..] == Joined(ws[1..]);
      }
    }
  }

  lemma {:induction false} JoinedEnds(ws: seq<string>)
    requires AllClean(ws) && ws != []
    ensures var s := Joined(ws); s != "" && !IsSpace(s[0]) && !IsSpace(s[|s| - 1])
  {
    hide IsSpace;
    assert Clean(ws[0]);
    if |ws| > 1 {
      JoinedEnds(ws[1..]);
      var tail := Joined(ws[1..]);
      var s := Joined(ws);
      assert s == ws[0] + " " + tail;
      assert s[0] == ws[0][0] && s[|s| - 1] == tail[|tail| - 1];
    }
  }

  lemma NormalizeClean(ws: seq<string>)
    requires AllClean(ws)
    ensures NormalizeSpace(Joined(ws)) == Joined(ws)
  {
    FieldsOfJoined(ws);
    if ws != [] {
      JoinedEnds(ws);
    }
  }

  /** Normalising white space twice is normalising it once. */
  lemma NormalizeSpaceIdempotent(s: string)
    ensures NormalizeSpace(NormalizeSpace(s)) == NormalizeSpace(s)
  {
    FieldsClean(TrimSpace(s));
    NormalizeClean(Fields(TrimSpace(s)));
  }

  predicate AllSpace(s: string) { forall i :: 0 <= i < |s| ==> IsSpace(s[i]) }

  /** Words with a gap of white space before each of them. */
  function Gapped(gaps: seq<string>, words: seq<string>): string
    requires |gaps| == |words|
  {
    if words == [] then "" else gaps[0] + words[0] + Gapped(gaps[1..], words[1..])
  }

  /** Every gap is white space, and none but the first is empty. */
  predicate AllGaps(gaps: seq<string>) {
    (forall i :: 0 <= i < |gaps| ==> AllSpace(gaps[i])) && (forall i :: 0 < i < |gaps| ==> gaps[i] != "")
  }

  lemma {:induction false} FieldsOver(gap: string, s: string)
    requires AllSpace(gap)
    ensures Fields(gap + s) == Fields(s)
  {
    hide IsSpace;
    if gap == "" {
      assert gap + s == s;
    } else {
      assert (gap + s)[1..] == gap[1..] + s;
      FieldsOver(gap[1..], s);
    }
  }

  /** Whatever the white space around and between them, the fields of a text are its words. */
  lemma {:induction false} FieldsOfGapped(gaps: seq<string>, words: seq<string>, after: string)
    requires |gaps| == |words| && AllGaps(gaps) && AllClean(words) && AllSpace(after)
    ensures Fields(Gapped(gaps, words) + after) == words
    decreases |words|
  {
    hide IsSpace;
    if words == [] {
      assert Gapped(gaps, words) + after == after + "";
      FieldsOver(after, "");
    } else {
      var rest := Gapped(gaps[1..], words[1..]) + after;
      var s := words[0] + rest;
      assert Gapped(gaps, words) + after == gaps[0] + s;
      FieldsOver(gaps[0], s);
      if |words| > 1 {
        assert rest[0] == gaps[1][0];
      } else {
        assert rest == after;
      }
      assert Clean(words[0]);
      WordThenRest(words[0], rest);
      assert s[0] == words[0][0] && s[|words[0]|..] == rest;
      FieldsOfGapped(gaps[1..], words[1..], after);
    }
  }

  lemma {:induction false} FieldsBefore(s: string, gap: string)
    requires AllSpace(gap)
    ensures Fields(s + gap) == Fields(s)
    decreases |s|
  {
    hide IsSpace;
    if s == "" {
      assert s + gap == gap + "";
      FieldsOver(gap, "");
    } else if IsSpace(s[0]) {
      assert (s + gap)[1..] == s[1..] + gap;
      FieldsBefore(s[1..], gap);
    } else {
      var w := Word(s);
      var rest := s[|w|..];
      assert s + gap == w + (rest + gap);
      WordThenRest(w, rest + gap);
      assert (s + gap)[|w|..] == rest + gap;
      FieldsBefore(rest, gap);
    }
  }

  /** So normalising leaves the words, one blank between each two. */
  lemma NormalizeGapped(gaps: seq<string>, words: seq<string>, after: string)
    requires |gaps| == |words| && AllGaps(gaps) && AllClean(words) && AllSpace(after)
    ensures NormalizeSpace(Gapped(gaps, words) + after) == Joined(words)
  {
    hide IsSpace, Joined;
    var s := Gapped(gaps, words) + after;
    TrimKeepsFields(s);
    FieldsOfGapped(gaps, words, after);
  }

  lemma TrimKeepsFields(s: string)
    ensures Fields(TrimSpace(s)) == Fields(s)
  {
    hide IsSpace, TrimLeft, TrimRight, Fields;
    LeftTrimmed(s);
    var left := TrimLeft(s);
    var before := s[..|s| - |left|];
    assert s == before + left;
    FieldsOver(before, left);
    RightTrimmed(left);
    var after := left[|TrimRight(left)|..];
    assert left == TrimRight(left) + after;
    FieldsBefore(TrimRight(left), after);
  }

  lemma {:induction false} LeftTrimmed(s: string)
    ensures |TrimLeft(s)| <= |s| && s[|s| - |TrimLeft(s)|..] == TrimLeft(s)
    ensures AllSpace(s[..|s| - |TrimLeft(s)|])
  {
    hide IsSpace;
    if s != "" && IsSpace(s[0]) {
      LeftTrimmed(s[1..]);
      var n := |s| - |TrimLeft(s)|;
      assert s[..n] == [s[0]] + s[1..][..n - 1];
    }
  }

  lemma {:induction false} RightTrimmed(s: string)
    ensures TrimRight(s) <= s && AllSpace(s[|TrimRight(s)|..])
  {
    hide IsSpace;
    if s != "" && IsSpace(s[|s| - 1]) {
      var n := |s| - 1;
      RightTrimmed(s[..n]);
      var k := |TrimRight(s)|;
      assert s[k..] == s[..n][k..] + [s[n]];
    }
  }

  /** A normalised text has no white space at its ends and single blanks between its words. */
  lemma NormalizedShape(s: string)
    ensures var r := NormalizeSpace(s);
            && (r != "" ==> !IsSpace(r[0]) && !IsSpace(r[|r| - 1]))
            && forall i :: 0 < i < |r| - 1 && IsSpace(r[i]) ==> r[i] == ' ' && !IsSpace(r[i - 1]) && !IsSpace(r[i + 1])
  {
    hide IsSpace;
    FieldsClean(TrimSpace(s));
    var ws := Fields(TrimSpace(s));
    if ws != [] {
      JoinedEnds(ws);
    }
    JoinedShape(ws);
  }

  lemma {:induction false} JoinedShape(ws: seq<string>)
    requires AllClean(ws)
    ensures var r := Joined(ws);
            forall i :: 0 < i < |r| - 1 && IsSpace(r[i]) ==> r[i] == ' ' && !IsSpace(r[i - 1]) && !IsSpace(r[i + 1])
  {
    hide IsSpace;
    if ws == [] {
    } else {
      assert Clean(ws[0]);
      if |ws| > 1 {
        JoinedShape(ws[1..]);
        JoinedEnds(ws[1..]);
        var tail := Joined(ws[1..]);
        var r, n := Joined(ws), |ws[0]|;
        assert r == ws[0] + " " + tail;
        forall i | 0 < i < |r| - 1 && IsSpace(r[i])
          ensures r[i] == ' ' && !IsSpace(r[i - 1]) && !IsSpace(r[i + 1])
        {
          if i > n {
            assert r[i] == tail[i - n - 1];
          }
        }
      }
    }
  }

  lemma {:induction false} TrimLeftOver(before: string, s: string)
    requires AllSpace(before) && s != "" && !IsSpace(s[0])
    ensures TrimLeft(before + s) == s
  {
    hide IsSpace;
    if before == "" {
      assert before + s == s;
    } else {
      assert (before + s)[1..] == before[1..] + s;
      TrimLeftOver(before[1..], s);
    }
  }

  lemma {:induction false} TrimRightOver(s: string, after: string)
    requires AllSpace(after) && s != "" && !IsSpace(s[|s| - 1])
    ensures TrimRight(s + after) == s
  {
    hide IsSpace;
    if after == "" {
      assert s + after == s;
    } else {
      var n := |after| - 1;
      assert (s + after)[..|s| + n] == s + after[..n];
      TrimRightOver(s, after[..n]);
    }
  }

  lemma TrimSurrounded(before: string, s: string, after: string)
    requires AllSpace(before) && AllSpace(after)
    requires s != "" && !IsSpace(s[0]) && !IsSpace(s[|s| - 1])
    ensures TrimSpace(before + s + after) == s
  {
    hide IsSpace;
    assert before + s + after == before + (s + after);
    TrimLeftOver(before, s + after);
    TrimRightOver(s, after);
  }

  // ---- Decimal and hexadecimal ----

  function Digit(d: nat): (c: char)
    requires d < 10
    ensures '0' <= c <= '9'
  {
    ('0' as int + d) as char
  }

  function Decimal(n: nat): (s: string)
    ensures s != "" && forall i :: 0 <= i < |s| ==> '0' <= s[i] <= '9'
  {
    if n < 10 then [Digit(n)] else Decimal(n / 10) + [Digit(n % 10)]
  }

  lemma {:induction false} DecimalInjective(m: nat, n: nat)
    requires Decimal(m) == Decimal(n)
    ensures m == n
  {
    if m >= 10 && n >= 10 {
      var s, t := Decimal(m / 10), Decimal(n / 10);
      assert s == (s + [Digit(m % 10)])[..|s|] && t == (t + [Digit(n % 10)])[..|t|];
      assert Decimal(m)[|s|] == Digit(m % 10) && Decimal(n)[|t|] == Digit(n % 10);
      DecimalInjective(m / 10, n / 10);
    }
  }

  /** A digit string read from the left, base ten. */
  function Reading(s: string): nat
    requires forall i :: 0 <= i < |s| ==> '0' <= s[i] <= '9'
  {
    if s == "" then 0 else 10 * Reading(s[..|s| - 1]) + (s[|s| - 1] as int - '0' as int)
  }

  /** Printing a number gives the decimal notation that reads as it, without leading zeros. */
  lemma {:induction false} DecimalReads(n: nat)
    ensures Reading(Decimal(n)) == n && (n > 0 ==> Decimal(n)[0] != '0')
  {
    if n < 10 {
      assert [Digit(n)][..0] == "";
    } else {
      DecimalReads(n / 10);
      assert (Decimal(n / 10) + [Digit(n % 10)])[..|Decimal(n / 10)|] == Decimal(n / 10);
    }
  }

  predicate IsHexDigit(c: char) { '0' <= c <= '9' || 'a' <= c <= 'f' }

  /** validHex: exact length, decodable, lower case. */
  predicate ValidHex(value: string, size: nat) {
    |value| == size && size % 2 == 0 && forall i :: 0 <= i < |value| ==> IsHexDigit(value[i])
  }

  function Nibble(n: nat): (c: char)
    requires n < 16
    ensures IsHexDigit(c)
  {
    if n < 10 then ('0' as int + n) as char else ('a' as int + n - 10) as char
  }

  /** hex.EncodeToString */
  function HexOf(bytes: Bytes): (s: string)
    ensures ValidHex(s, 2 * |bytes|)
  {
    if bytes == [] then ""
    else [Nibble(bytes[0] as int / 16), Nibble(bytes[0] as int % 16)] + HexOf(bytes[1..])
  }

  lemma HexDigits(c: char)
    ensures IsHexDigit(c) <==> c in "0123456789abcdef"
  {
  }

  function NibbleValue(c: char): nat
    requires IsHexDigit(c)
  {
    if c <= '9' then c as int - '0' as int else c as int - 'a' as int + 10
  }

  /** Two digits a byte, high digit first. */
  lemma {:induction false} HexReads(bytes: Bytes, i: nat)
    requires i < |bytes|
    ensures bytes[i] as int == 16 * NibbleValue(HexOf(bytes)[2 * i]) + NibbleValue(HexOf(bytes)[2 * i + 1])
  {
    hide Nibble, NibbleValue, IsHexDigit;
    var hex, rest := HexOf(bytes), HexOf(bytes[1..]);
    if i == 0 {
      NibbleReads(bytes[0] as int / 16);
      NibbleReads(bytes[0] as int % 16);
    } else {
      HexReads(bytes[1..], i - 1);
      assert hex[2..] == rest;
      assert hex[2 * i] == hex[2..][2 * i - 2] && hex[2 * i + 1] == hex[2..][2 * i - 1];
    }
  }

  lemma NibbleReads(n: nat)
    requires n < 16
    ensures NibbleValue(Nibble(n)) == n
  {
  }

  // ---- '|'-joined text ----

  predicate BarFree(s: string) { '|' !in s }

  /** Joining with '|' is injective when the left part is free of it. */
  lemma SplitAtBar(a: string, x: string, b: string, y: string)
    requires BarFree(a) && BarFree(b)
    requires a + "|" + x == b + "|" + y
    ensures a == b && x == y
  {
    var s := a + "|" + x;
    assert s == b + "|" + y;
    assert s[|a|] == '|' && s[|b|] == '|';
    assert forall i :: 0 <= i < |a| ==> s[i] == a[i];
    assert forall i :: 0 <= i < |b| ==> s[i] == b[i];
    assert |a| == |b|;
    assert s[..|a|] == a && s[..|b|] == b;
    assert s[|a| + 1..] == x && s[|b| + 1..] == y;
  }

  lemma HexBarFree(s: string)
    requires forall i :: 0 <= i < |s| ==> IsHexDigit(s[i])
    ensures BarFree(s)
  {
  }
}
