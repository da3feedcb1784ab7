// JavaScript's String(), trim, toUpperCase and toLowerCase, as far as the TypeScript modules rely on them.

module JavaScript {
  import opened Basics
  import opened JsonValues
  import Text

  predicate IsWhite(c: char) { (Text.IsSpace(c) && c != '\U{85}') || c == '\U{FEFF}' }

  function TrimStart(s: string): string { if s != "" && IsWhite(s[0]) then TrimStart(s[1..]) else s }

  function TrimEnd(s: string): string { if s != "" && IsWhite(s[|s| - 1]) then TrimEnd(s[..|s| - 1]) else s }

  function Trim(s: string): string { TrimEnd(TrimStart(s)) }

  predicate AllWhite(s: string) { forall i :: 0 <= i < |s| ==> IsWhite(s[i]) }

  lemma {:induction false} TrimStartIs(s: string)
    ensures var r := TrimStart(s);
            && |r| <= |s| && s[|s| - |r|..] == r && AllWhite(s[..|s| - |r|]) && (r != "" ==> !IsWhite(r[0]))
  {
    hide IsWhite;
    if s != "" && IsWhite(s[0]) {
      TrimStartIs(s[1..]);
      var n := |s| - |TrimStart(s)|;
      assert s[..n] == [s[0]] + s[1..][..n - 1];
    }
  }

  lemma {:induction false} TrimEndIs(s: string)
    ensures var r := TrimEnd(s);
            r <= s && AllWhite(s[|r|..]) && (r != "" ==> !IsWhite(r[|r| - 1]))
  {
    hide IsWhite;
    if s != "" && IsWhite(s[|s| - 1]) {
      var n := |s| - 1;
      TrimEndIs(s[..n]);
      assert s[|TrimEnd(s)|..] == s[..n][|TrimEnd(s)|..] + [s[n]];
    }
  }

  /** Trimming takes off white space at both ends, all of it and nothing else. */
  lemma TrimIs(s: string) returns (before: string, after: string)
    ensures s == before + Trim(s) + after && AllWhite(before) && AllWhite(after)
    ensures Trim(s) != "" ==> !IsWhite(Trim(s)[0]) && !IsWhite(Trim(s)[|Trim(s)| - 1])
  {
    hide IsWhite;
    var left := TrimStart(s);
    TrimStartIs(s);
    TrimEndIs(left);
    before, after := s[..|s| - |left|], left[|Trim(s)|..];
    assert left == Trim(s) + after;
  }

  /**
   * Upper case, exact wherever the result is plain ASCII; characters whose upper case holds anything
   * else are left as they are.
   */
  function UpperOf(c: char): string {
    if 'a' <= c <= 'z' then [c - 'a' + 'A']
    else if c == '\U{131}' then "I"
    else if c == '\U{17F}' then "S"
    else if c == '\U{DF}' then "SS"
    else if c == '\U{FB00}' then "FF"
    else if c == '\U{FB01}' then "FI"
    else if c == '\U{FB02}' then "FL"
    else if c == '\U{FB03}' then "FFI"
    else if c == '\U{FB04}' then "FFL"
    else if c == '\U{FB05}' || c == '\U{FB06}' then "ST"
    else [c]
  }

  function ToUpperCase(s: string): string { if s == "" then "" else UpperOf(s[0]) + ToUpperCase(s[1..]) }

  /** A text of ASCII letters and other characters that have no case goes up letter by letter. */
  lemma {:induction false} UpperAscii(s: string, i: nat)
    requires i < |s| && forall k :: 0 <= k < |s| ==> s[k] < '\U{80}'
    ensures |ToUpperCase(s)| == |s|
    ensures ToUpperCase(s)[i] == if 'a' <= s[i] <= 'z' then s[i] - 'a' + 'A' else s[i]
  {
    if |s| > 1 {
      UpperAscii(s[1..], if i > 0 then i - 1 else 0);
    } else {
      assert s[1..] == "" && ToUpperCase("") == "";
    }
  }

  /** Lower case of ASCII letters; the Kelvin sign is the one other character with an ASCII lower case. */
  function ToLowerCase(s: string): string {
    if s == "" then ""
    else
      var lower := if 'A' <= s[0] <= 'Z' then s[0] - 'A' + 'a' else if s[0] == '\U{212A}' then 'k' else s[0];
      [lower] + ToLowerCase(s[1..])
  }

  lemma {:induction false} LowerAscii(s: string, i: nat)
    requires i < |s| && forall k :: 0 <= k < |s| ==> s[k] < '\U{80}'
    ensures |ToLowerCase(s)| == |s|
    ensures ToLowerCase(s)[i] == if 'A' <= s[i] <= 'Z' then s[i] - 'A' + 'a' else s[i]
  {
    if |s| > 1 {
      LowerAscii(s[1..], if i > 0 then i - 1 else 0);
    } else {
      assert s[1..] == "" && ToLowerCase("") == "";
    }
  }

  /** String(value); None when it throws. */
  function StringOf(j: Json): (r: Option<string>)
    ensures Stringable(j) <==> r.Some?
  {
    match j
    case JNull => Some("null")
    case JBool(flag) => Some(if flag then "true" else "false")
    case JNumber(n) => Some(if n < 0 then "-" + Text.Decimal(-n) else Text.Decimal(n))
    case JString(s) => Some(s)
    case JArray(items) => Commas(items)
    case JObject(fields) => if "toString" in fields then None else Some("[object Object]")
  }

  function Commas(items: seq<Json>): (r: Option<string>)
    ensures r.Some? <==> forall i :: 0 <= i < |items| ==> items[i].JNull? || Stringable(items[i])
  {
    if items == [] then Some("")
    else
      var head := if items[0].JNull? then Some("") else StringOf(items[0]);
      var rest := Commas(items[1..]);
      if head.None? || rest.None? then None
      else Some(if |items| == 1 then head.value else head.value + "," + rest.value)
  }
}
