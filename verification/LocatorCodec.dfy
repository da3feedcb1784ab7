// EncodeLocator and DecodeLocator of sdk/account/codec.go.

module LocatorCodec {
  import opened Basics
  import opened AccountTypes
  import opened AccountBackup
  import opened Base64
  import opened Text

  const PREFIX := "sat20locator1:"

  function EncodeLocator(c: Suite, l: Locator): Outcome<string> {
    var _ :- ValidateLocator(l);
    Ok(PREFIX + RawUrlEncode(c.locatorJson(l)))
  }

  function DecodeLocator(c: Suite, text: string): Outcome<Locator> {
    var value := TrimSpace(text);
    if !(PREFIX <= value) then Err(InvalidRecoveryPackage)
    else
      match RawUrlDecode(value[|PREFIX|..])
      case None => Err(InvalidRecoveryPackage)
      case Some(encoded) =>
        match c.parseLocator(encoded)
        case None => Err(InvalidRecoveryPackage)
        case Some(l) =>
          var _ :- ValidateLocator(l);
          Ok(l)
  }

  lemma EncodedEnds(c: Suite, l: Locator)
    ensures var t := PREFIX + RawUrlEncode(c.locatorJson(l));
            !IsSpace(t[0]) && !IsSpace(t[|t| - 1])
  {
    hide IsSpace;
    assert !IsSpace('s') && !IsSpace(':') by { Printable('s'); Printable(':'); }
    var body := RawUrlEncode(c.locatorJson(l));
    var t := PREFIX + body;
    EncodedInAlphabet(c.locatorJson(l));
    if body != "" {
      assert t[|t| - 1] == body[|body| - 1];
      assert Value(UrlSafe, body[|body| - 1]).Some?;
      Printable(body[|body| - 1]);
    } else {
      assert t == PREFIX;
    }
  }

  lemma Printable(ch: char)
    requires '!' <= ch <= '~'
    ensures !IsSpace(ch)
  {
  }

  /** Exactly the valid locators can be encoded, and decoding gives the locator back even between blanks. */
  lemma EncodeThenDecode(c: Suite, l: Locator, before: string, after: string)
    requires TextLaws(c) && AllSpace(before) && AllSpace(after)
    ensures EncodeLocator(c, l).Ok? <==> ValidateLocator(l).Ok?
    ensures EncodeLocator(c, l).Ok? ==> DecodeLocator(c, before + EncodeLocator(c, l).value + after) == Ok(l)
  {
    hide ValidateLocator, RawUrlEncode, RawUrlDecode, TrimSpace, IsSpace;
    if EncodeLocator(c, l).Ok? {
      var body := RawUrlEncode(c.locatorJson(l));
      EncodedEnds(c, l);
      TrimSurrounded(before, PREFIX + body, after);
      assert (PREFIX + body)[|PREFIX|..] == body;
      RawUrlRoundTrip(c.locatorJson(l));
    }
  }

  /** The text is the prefix and the locator's JSON; without the prefix nothing decodes. */
  lemma EncodedSays(c: Suite, l: Locator, text: string)
    ensures EncodeLocator(c, l).Ok? ==>
              && Locates(l) && "sat20locator1:" <= EncodeLocator(c, l).value
              && RawUrlDecode(EncodeLocator(c, l).value[14..]) == Some(c.locatorJson(l))
    ensures DecodeLocator(c, text).Ok? ==> "sat20locator1:" <= TrimSpace(text) && Locates(DecodeLocator(c, text).value)
  {
    hide RawUrlDecode, RawUrlEncode, TrimSpace, ValidateLocator, Locates;
    LocatorValidExactly(l);
    RawUrlRoundTrip(c.locatorJson(l));
    assert (PREFIX + RawUrlEncode(c.locatorJson(l)))[14..] == RawUrlEncode(c.locatorJson(l));
    if DecodeLocator(c, text).Ok? {
      LocatorValidExactly(DecodeLocator(c, text).value);
    }
  }

  /** Two locators never share an encoding. */
  lemma EncodingsDiffer(c: Suite, l: Locator, m: Locator)
    requires TextLaws(c) && EncodeLocator(c, l).Ok? && EncodeLocator(c, l) == EncodeLocator(c, m)
    ensures l == m
  {
    hide EncodeLocator, DecodeLocator;
    EncodeThenDecode(c, l, "", "");
    EncodeThenDecode(c, m, "", "");
  }

  /** Whatever decodes is a valid locator. */
  lemma DecodedIsValid(c: Suite, text: string)
    requires DecodeLocator(c, text).Ok?
    ensures ValidateLocator(DecodeLocator(c, text).value).Ok?
  {
    hide RawUrlDecode, TrimSpace;
  }
}
