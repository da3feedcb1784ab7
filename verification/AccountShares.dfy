// Recovery shares: sdk/account/share.go.

module AccountShares {
  import opened Basics
  import opened Entropy
  import opened AccountTypes
  import opened AccountBackup
  import opened Base64
  import opened Text
  import opened Sealing
  import Shamir
  import Polynomial

  function ExpectedRole(total: nat, index: nat): string {
    if total in {2, 3} && index == 1 then ROLE_USER
    else if total in {2, 3} && index == 2 then ROLE_DKVS
    else if total == 3 && index == 3 then ROLE_GUARDIAN
    else ""
  }

  function ShareChecksum(c: Suite, s: RecoveryShare): string { c.shareDigest(s.(checksum := "")) }

  predicate WellFormedShare(c: Suite, s: RecoveryShare) {
    && s.version == VERSION && ValidHex(s.packageID, 32) && s.threshold == 2
    && (s.total == 2 || s.total == 3) && 1 <= s.index <= s.total
    && s.role == ExpectedRole(s.total, s.index)
    && ValidHex(s.checksum, 16) && ShareChecksum(c, s) == s.checksum
  }

  /** validateShare: the raw share, whose last byte repeats the index. */
  function ValidateShare(c: Suite, s: RecoveryShare): (r: Outcome<Bytes>)
    ensures r.Ok? ==> |r.value| == ACCOUNT_SECRET_SIZE + Shamir.SHARE_OVERHEAD
                      && r.value[ACCOUNT_SECRET_SIZE] as int == s.index && 1 <= s.index <= 3
    ensures r.Err? ==> r.error == InvalidShare
  {
    if !WellFormedShare(c, s) then Err(InvalidShare)
    else
      match RawUrlDecode(s.data)
      case None => Err(InvalidShare)
      case Some(raw) =>
        if |raw| == ACCOUNT_SECRET_SIZE + Shamir.SHARE_OVERHEAD && raw[|raw| - 1] as int == s.index then Ok(raw)
        else Err(InvalidShare)
  }

  /** Which share of how many, and whose it is. */
  predicate Seat(total: nat, index: nat, role: string) {
    || ((total == 2 || total == 3) && index == 1 && role == "user")
    || ((total == 2 || total == 3) && index == 2 && role == "dkvs")
    || (total == 3 && index == 3 && role == "guardian")
  }

  /** Exactly which shares are valid, and the bytes they stand for. */
  lemma ShareValidExactly(c: Suite, s: RecoveryShare)
    ensures ValidateShare(c, s).Ok? <==>
              && s.version == 1 && ValidHex(s.packageID, 32) && s.threshold == 2 && Seat(s.total, s.index, s.role)
              && ValidHex(s.checksum, 16) && s.checksum == c.shareDigest(s.(checksum := ""))
              && RawUrlDecode(s.data).Some? && |RawUrlDecode(s.data).value| == 33
              && RawUrlDecode(s.data).value[32] as int == s.index
    ensures ValidateShare(c, s).Ok? ==> RawUrlDecode(s.data) == Some(ValidateShare(c, s).value)
  {
    hide RawUrlDecode, ValidHex;
  }

  /** A valid share that was changed and is still valid has another checksum, or the digest collides. */
  lemma ChangedShare(c: Suite, s: RecoveryShare, t: RecoveryShare)
    requires ValidateShare(c, s).Ok? && ValidateShare(c, t).Ok? && s != t && s.checksum == t.checksum
    ensures s.(checksum := "") != t.(checksum := "")
    ensures c.shareDigest(s.(checksum := "")) == c.shareDigest(t.(checksum := ""))
  {
    hide RawUrlDecode, ValidHex;
    assert s == s.(checksum := "").(checksum := s.checksum);
    assert t == t.(checksum := "").(checksum := t.checksum);
  }

  function MakeShare(c: Suite, packageID: string, total: nat, index: nat, raw: Bytes): RecoveryShare {
    var blank := RecoveryShare(VERSION, packageID, 2, total, index, ExpectedRole(total, index), RawUrlEncode(raw), "");
    blank.(checksum := ShareChecksum(c, blank))
  }

  function NewRecoveryShare(c: Suite, packageID: string, total: nat, index: nat, raw: Bytes): Outcome<RecoveryShare> {
    var share := MakeShare(c, packageID, total, index, raw);
    var _ :- ValidateShare(c, share);
    Ok(share)
  }

  lemma NewShareValid(c: Suite, packageID: string, total: nat, index: nat, raw: Bytes)
    requires DigestLaws(c) && ValidHex(packageID, 32) && total in {2, 3} && 1 <= index <= total
    requires |raw| == ACCOUNT_SECRET_SIZE + 1 && raw[ACCOUNT_SECRET_SIZE] as int == index
    ensures var s := MakeShare(c, packageID, total, index, raw);
            && NewRecoveryShare(c, packageID, total, index, raw) == Ok(s)
            && ValidateShare(c, s) == Ok(raw)
  {
    hide RawUrlEncode, RawUrlDecode, ValidHex, ExpectedRole;
    RawUrlRoundTrip(raw);
    var s := MakeShare(c, packageID, total, index, raw);
    assert s.(checksum := "") ==
          RecoveryShare(VERSION, packageID, 2, total, index, ExpectedRole(total, index), RawUrlEncode(raw), "");
  }

  function Wrapped(c: Suite, packageID: string, raws: seq<Bytes>, n: nat): (r: Outcome<seq<RecoveryShare>>)
    requires n <= |raws|
    ensures r.Ok? ==> |r.value| == n
  {
    if n == 0 then Ok([])
    else
      var earlier :- Wrapped(c, packageID, raws, n - 1);
      var last :- NewRecoveryShare(c, packageID, |raws|, n, raws[n - 1]);
      Ok(earlier + [last])
  }

  /** splitSecret: one random byte per secret byte, then every raw share is wrapped and checked. */
  function SplitSecret(c: Suite, secret: Bytes, packageID: string, mode: string, stream: Bytes)
    : (r: Outcome<Drawn<seq<RecoveryShare>>>)
    ensures r.Ok? ==> |r.value.value| == ShareTotal(mode)
  {
    if mode != MODE_2OF2 && mode != MODE_2OF3 then Err(InvalidRecoveryPackage)
    else if secret == [] || |stream| < |secret| then Err(EntropyExhausted)
    else
      var shares :- Wrapped(c, packageID, Shamir.Shares(secret, ShareTotal(mode), 1, stream), ShareTotal(mode));
      Ok(Drawn(shares, stream[|secret|..]))
  }

  method SplitSecretWithReader(c: Suite, secret: Bytes, packageID: string, mode: string, random: Reader)
    returns (r: Outcome<seq<RecoveryShare>>)
    modifies random
    ensures r.Ok? <==> SplitSecret(c, secret, packageID, mode, old(random.stream)).Ok?
    ensures r.Ok? ==> Drawn(r.value, random.stream) == SplitSecret(c, secret, packageID, mode, old(random.stream)).value
    ensures r.Err? ==> r.error == SplitSecret(c, secret, packageID, mode, old(random.stream)).error
  {
    hide Shamir.Shares;
    var total := 2;
    if mode == MODE_2OF3 {
      total := 3;
    } else if mode != MODE_2OF2 {
      return Err(InvalidRecoveryPackage);
    }
    var raws := Shamir.Split(secret, total, 2, random);
    if raws.None? {
      return Err(EntropyExhausted);
    }
    var shares: seq<RecoveryShare> := [];
    for i := 0 to total
      invariant Wrapped(c, packageID, raws.value, i) == Ok(shares)
    {
      var next := NewRecoveryShare(c, packageID, total, i + 1, raws.value[i]);
      if next.Err? {
        assert Wrapped(c, packageID, raws.value, i + 1) == Err(next.error);
        WrappedErrors(c, packageID, raws.value, i + 1, total);
        return Err(next.error);
      }
      shares := shares + [next.value];
    }
    return Ok(shares);
  }

  lemma {:induction false} WrappedErrors(c: Suite, packageID: string, raws: seq<Bytes>, m: nat, n: nat)
    requires m <= n <= |raws| && Wrapped(c, packageID, raws, m).Err?
    ensures Wrapped(c, packageID, raws, n) == Err(Wrapped(c, packageID, raws, m).error)
  {
    hide NewRecoveryShare;
    if m < n {
      WrappedErrors(c, packageID, raws, m, n - 1);
    }
  }

  // ---- CombineShares ----

  predicate Compatible(shares: seq<RecoveryShare>) {
    && (forall i :: 0 <= i < |shares| ==>
          && shares[i].packageID == shares[0].packageID
          && shares[i].total == shares[0].total
          && shares[i].threshold == shares[0].threshold)
    && (forall i, j :: 0 <= i < j < |shares| ==> shares[i].index != shares[j].index)
  }

  predicate AllValid(c: Suite, shares: seq<RecoveryShare>) {
    forall i :: 0 <= i < |shares| ==> ValidateShare(c, shares[i]).Ok?
  }

  lemma FirstTwoCombinable(c: Suite, shares: seq<RecoveryShare>)
    requires |shares| >= 2 && Compatible(shares) && AllValid(c, shares)
    ensures Shamir.Combinable([ValidateShare(c, shares[0]).value, ValidateShare(c, shares[1]).value])
  {
    var r0, r1 := ValidateShare(c, shares[0]).value, ValidateShare(c, shares[1]).value;
    assert shares[0].index != shares[1].index;
    assert Shamir.Abscissas([r0, r1]) == [r0[ACCOUNT_SECRET_SIZE], r1[ACCOUNT_SECRET_SIZE]];
  }

  /** Every share is checked, but only the first two take part in the interpolation. */
  function CombineShares(c: Suite, shares: seq<RecoveryShare>): (r: Outcome<Bytes>)
    ensures r.Ok? ==> |r.value| == ACCOUNT_SECRET_SIZE
  {
    if |shares| < 2 then Err(InsufficientShares)
    else if !Compatible(shares) || !AllValid(c, shares) then Err(InvalidShare)
    else
      FirstTwoCombinable(c, shares);
      Ok(Shamir.Combined([ValidateShare(c, shares[0]).value, ValidateShare(c, shares[1]).value]))
  }

  /**
   * Combination succeeds exactly for two or more valid shares of one package and size with different indexes;
   * all of them are checked, and any two first ones decide the secret.
   */
  lemma CombinesExactly(c: Suite, shares: seq<RecoveryShare>)
    ensures CombineShares(c, shares).Ok? <==>
              && |shares| >= 2
              && (forall i :: 0 <= i < |shares| ==> ValidateShare(c, shares[i]).Ok?)
              && (forall i, j :: 0 <= i < j < |shares| ==>
                    && shares[i].packageID == shares[j].packageID && shares[i].total == shares[j].total
                    && shares[i].index != shares[j].index)
    ensures CombineShares(c, shares).Ok? ==> CombineShares(c, shares) == CombineShares(c, shares[..2])
    ensures CombineShares(c, shares).Err? ==>
              CombineShares(c, shares).error == if |shares| < 2 then InsufficientShares else InvalidShare
  {
    hide Shamir.Combined, Shamir.Combinable, RawUrlDecode, ValidHex, ShareChecksum;
    forall i | 0 <= i < |shares| && ValidateShare(c, shares[i]).Ok?
      ensures shares[i].threshold == 2
    {
    }
    if CombineShares(c, shares).Ok? {
      var two := shares[..2];
      assert two[0] == shares[0] && two[1] == shares[1];
      assert AllValid(c, two) && Compatible(two);
    }
  }

  method CombineSharesInOrder(c: Suite, shares: seq<RecoveryShare>) returns (r: Outcome<Bytes>)
    ensures r == CombineShares(c, shares)
  {
    hide ValidateShare, Shamir.Combined, Shamir.Combinable, ShareChecksum, ValidHex, CombineShares, Compatible,
         AllValid;
    CombinesCase(c, shares);
    if |shares| < 2 {
      return Err(InsufficientShares);
    }
    var reference := shares[0];
    var seen: set<nat> := {};
    var raw: seq<Bytes> := [];
    for i := 0 to |shares|
      invariant |raw| == i
      invariant forall j :: 0 <= j < i ==>
                          && shares[j].packageID == reference.packageID
                          && shares[j].total == reference.total && shares[j].threshold == reference.threshold
      invariant forall j, k :: 0 <= j < k < i ==> shares[j].index != shares[k].index
      invariant seen == set j | 0 <= j < i :: shares[j].index
      invariant forall j :: 0 <= j < i ==> ValidateShare(c, shares[j]) == Ok(raw[j])
    {
      var share := shares[i];
      if share.packageID != reference.packageID || share.total != reference.total
         || share.threshold != reference.threshold {
        NotCombinable(c, shares, i);
        return Err(InvalidShare);
      }
      if share.index in seen {
        NotCombinable(c, shares, i);
        return Err(InvalidShare);
      }
      seen := seen + {share.index};
      var decoded := ValidateShare(c, share);
      if decoded.Err? {
        NotCombinable(c, shares, i);
        return Err(InvalidShare);
      }
      raw := raw + [decoded.value];
    }
    assert Compatible(shares) && AllValid(c, shares) by {
      assert forall j :: 0 <= j < |shares| ==> ValidateShare(c, shares[j]).Ok?;
      AllCombinable(c, shares);
    }
    FirstTwoCombinable(c, shares);
    assert raw[..2] == [raw[0], raw[1]];
    var secret := Shamir.Combine(raw[..2]);
    return Ok(secret.value);
  }

  /** A share that differs from the first, repeats an earlier index, or does not validate. */
  lemma NotCombinable(c: Suite, shares: seq<RecoveryShare>, i: nat)
    requires i < |shares|
    requires || shares[i].packageID != shares[0].packageID || shares[i].total != shares[0].total
             || shares[i].threshold != shares[0].threshold || ValidateShare(c, shares[i]).Err?
             || exists j :: 0 <= j < i && shares[j].index == shares[i].index
    ensures !(Compatible(shares) && AllValid(c, shares))
  {
  }

  lemma AllCombinable(c: Suite, shares: seq<RecoveryShare>)
    requires forall j :: 0 <= j < |shares| ==>
               && shares[j].packageID == shares[0].packageID && shares[j].total == shares[0].total
               && shares[j].threshold == shares[0].threshold && ValidateShare(c, shares[j]).Ok?
    requires forall j, k :: 0 <= j < k < |shares| ==> shares[j].index != shares[k].index
    ensures Compatible(shares) && AllValid(c, shares)
  {
  }

  lemma CombinesCase(c: Suite, shares: seq<RecoveryShare>)
    ensures |shares| < 2 ==> CombineShares(c, shares) == Err(InsufficientShares)
    ensures |shares| >= 2 && !(Compatible(shares) && AllValid(c, shares)) ==>
              CombineShares(c, shares) == Err(InvalidShare)
    ensures |shares| >= 2 && Compatible(shares) && AllValid(c, shares) ==>
              var raws := [ValidateShare(c, shares[0]).value, ValidateShare(c, shares[1]).value];
              Shamir.Combinable(raws) && CombineShares(c, shares) == Ok(Shamir.Combined(raws))
  {
    hide Shamir.Combined, Shamir.Combinable, Compatible, AllValid;
    if |shares| >= 2 && Compatible(shares) && AllValid(c, shares) {
      FirstTwoCombinable(c, shares);
    }
  }

  // ---- Any two shares of one package give the secret ----

  lemma {:induction false} WrappedShares(c: Suite, packageID: string, raws: seq<Bytes>, n: nat)
    requires DigestLaws(c) && ValidHex(packageID, 32) && |raws| in {2, 3} && n <= |raws|
    requires forall i :: 0 <= i < |raws| ==>
               |raws[i]| == ACCOUNT_SECRET_SIZE + 1 && raws[i][ACCOUNT_SECRET_SIZE] == Shamir.Octet(i + 1)
    ensures var r := Wrapped(c, packageID, raws, n);
            r.Ok? && forall i :: 0 <= i < n ==>
              && r.value[i] == MakeShare(c, packageID, |raws|, i + 1, raws[i])
              && ValidateShare(c, r.value[i]) == Ok(raws[i])
  {
    hide MakeShare, NewRecoveryShare, ValidateShare;
    if n == 0 {
    } else {
      WrappedShares(c, packageID, raws, n - 1);
      Shamir.OctetValue(n);
      NewShareValid(c, packageID, |raws|, n, raws[n - 1]);
    }
  }

  ghost predicate SplitResult(c: Suite, secret: Bytes, packageID: string, mode: string, shares: seq<RecoveryShare>,
                              stream: Bytes)
    requires |stream| >= |secret|
  {
    && |shares| == ShareTotal(mode)
    && forall i :: 0 <= i < |shares| ==>
         && shares[i] == MakeShare(c, packageID, ShareTotal(mode), i + 1, Shamir.Share(secret, 1, stream, i + 1))
         && ValidateShare(c, shares[i]) == Ok(Shamir.Share(secret, 1, stream, i + 1))
  }

  lemma SplitSucceeds(c: Suite, secret: Bytes, packageID: string, mode: string, stream: Bytes)
    requires DigestLaws(c) && ValidHex(packageID, 32) && mode in {MODE_2OF2, MODE_2OF3}
    requires |secret| == ACCOUNT_SECRET_SIZE && |stream| >= |secret|
    ensures var r := SplitSecret(c, secret, packageID, mode, stream);
            && r.Ok? && r.value.rest == stream[|secret|..]
            && SplitResult(c, secret, packageID, mode, r.value.value, stream)
  {
    hide MakeShare, NewRecoveryShare, ValidateShare;
    var raws := Shamir.Shares(secret, ShareTotal(mode), 1, stream);
    WrappedShares(c, packageID, raws, ShareTotal(mode));
  }

  /** Any two different shares of one split, in either order, combine to the secret. */
  lemma AnyTwoShares(c: Suite, secret: Bytes, packageID: string, mode: string, stream: Bytes, i: nat, j: nat)
    requires DigestLaws(c) && ValidHex(packageID, 32) && mode in {MODE_2OF2, MODE_2OF3}
    requires |secret| == ACCOUNT_SECRET_SIZE && |stream| >= |secret|
    requires i < ShareTotal(mode) && j < ShareTotal(mode) && i != j
    ensures var r := SplitSecret(c, secret, packageID, mode, stream);
            r.Ok? && CombineShares(c, [r.value.value[i], r.value.value[j]]) == Ok(secret)
  {
    hide SplitSecret, CombineShares, SplitResult;
    SplitSucceeds(c, secret, packageID, mode, stream);
    PairCombines(c, secret, packageID, mode, stream, SplitSecret(c, secret, packageID, mode, stream).value.value, i, j);
  }

  lemma PairCombines(c: Suite, secret: Bytes, packageID: string, mode: string, stream: Bytes,
                     shares: seq<RecoveryShare>, i: nat, j: nat)
    requires mode in {MODE_2OF2, MODE_2OF3}
    requires |stream| >= |secret| == ACCOUNT_SECRET_SIZE
    requires SplitResult(c, secret, packageID, mode, shares, stream)
    requires i < ShareTotal(mode) && j < ShareTotal(mode) && i != j
    ensures CombineShares(c, [shares[i], shares[j]]) == Ok(secret)
  {
    hide ValidateShare, Shamir.Combined, Shamir.Combinable, Shamir.Share, Compatible, AllValid;
    TwoRaw(c, secret, packageID, mode, stream, shares, i, j);
    Shamir.SplitThenCombine(secret, ShareTotal(mode), 2, stream, [i, j]);
    var raws := Shamir.Shares(secret, ShareTotal(mode), 1, stream);
    assert Shamir.Chosen(raws, [i, j]) == [raws[i], raws[j]];
  }

  lemma TwoRaw(c: Suite, secret: Bytes, packageID: string, mode: string, stream: Bytes, shares: seq<RecoveryShare>,
               i: nat, j: nat)
    requires |stream| >= |secret| == ACCOUNT_SECRET_SIZE
    requires SplitResult(c, secret, packageID, mode, shares, stream)
    requires i < |shares| && j < |shares| && i != j
    ensures var pair := [shares[i], shares[j]];
            && Compatible(pair) && AllValid(c, pair)
            && [ValidateShare(c, pair[0]).value, ValidateShare(c, pair[1]).value]
               == [Shamir.Shares(secret, ShareTotal(mode), 1, stream)[i],
                   Shamir.Shares(secret, ShareTotal(mode), 1, stream)[j]]
  {
    hide ValidateShare, ShareChecksum, ExpectedRole, RawUrlEncode;
  }
}
