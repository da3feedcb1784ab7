// A concrete instance of every law assumed of the primitives, so that the theorems about
// lawful suites are not about nothing.

module SampleSuite {
  import opened Basics
  import opened AccountTypes
  import opened Encodings
  import opened Text

  // ---- Codes of the JSON values, each followed by what comes after it ----

  function SubCode(s: SubAccount, tail: Bytes): Bytes { Unary(s.index) + (TextCode(s.name) + (TextCode(s.did) + tail)) }

  function SubsCode(s: seq<SubAccount>, tail: Bytes): Bytes {
    if s == [] then [0] + tail else [1] + SubCode(s[0], SubsCode(s[1..], tail))
  }

  function WalletCode(w: WalletBackup, tail: Bytes): Bytes {
    TextCode(w.name) + (TextCode(w.mnemonic) + (Unary(w.accountCount) + SubsCode(w.subAccounts, tail)))
  }

  function WalletsCode(ws: seq<WalletBackup>, tail: Bytes): Bytes {
    if ws == [] then [0] + tail else [1] + WalletCode(ws[0], WalletsCode(ws[1..], tail))
  }

  function BackupCode(b: Backup): Bytes { Unary(b.version) + WalletsCode(b.wallets, []) }

  function ShareCode(s: RecoveryShare): Bytes {
    Unary(s.version) + (TextCode(s.packageID) + (Unary(s.threshold) + (Unary(s.total) + (Unary(s.index)
    + (TextCode(s.role) + (TextCode(s.data) + TextCode(s.checksum)))))))
  }

  function LocatorCode(l: Locator): Bytes {
    Unary(l.version) + (TextCode(l.accountID) + (TextCode(l.packageID) + TextCode(l.recoveryMode)))
  }

  lemma {:induction false} SubsPrefix(s: seq<SubAccount>, t: seq<SubAccount>, p: Bytes, q: Bytes)
    requires SubsCode(s, p) == SubsCode(t, q)
    ensures s == t && p == q
  {
    hide Unary, TextCode;
    var x := SubsCode(s, p);
    if s == [] {
      assert x[0] == 0 && t == [];
      assert x[1..] == p && x[1..] == q;
    } else {
      assert x[0] == 1 && t != [];
      var a, b := SubsCode(s[1..], p), SubsCode(t[1..], q);
      assert x[1..] == SubCode(s[0], a) && x[1..] == SubCode(t[0], b);
      UnaryPrefix(s[0].index, t[0].index,
                  TextCode(s[0].name) + (TextCode(s[0].did) + a), TextCode(t[0].name) + (TextCode(t[0].did) + b));
      TextPrefix(s[0].name, t[0].name, TextCode(s[0].did) + a, TextCode(t[0].did) + b);
      TextPrefix(s[0].did, t[0].did, a, b);
      SubsPrefix(s[1..], t[1..], p, q);
      assert s == [s[0]] + s[1..] && t == [t[0]] + t[1..];
    }
  }

  lemma WalletPrefix(v: WalletBackup, w: WalletBackup, p: Bytes, q: Bytes)
    requires WalletCode(v, p) == WalletCode(w, q)
    ensures v == w && p == q
  {
    hide Unary, TextCode, SubsCode;
    var a, b := SubsCode(v.subAccounts, p), SubsCode(w.subAccounts, q);
    TextPrefix(v.name, w.name,
               TextCode(v.mnemonic) + (Unary(v.accountCount) + a), TextCode(w.mnemonic) + (Unary(w.accountCount) + b));
    TextPrefix(v.mnemonic, w.mnemonic, Unary(v.accountCount) + a, Unary(w.accountCount) + b);
    UnaryPrefix(v.accountCount, w.accountCount, a, b);
    SubsPrefix(v.subAccounts, w.subAccounts, p, q);
  }

  lemma {:induction false} WalletsPrefix(s: seq<WalletBackup>, t: seq<WalletBackup>, p: Bytes, q: Bytes)
    requires WalletsCode(s, p) == WalletsCode(t, q)
    ensures s == t && p == q
  {
    hide WalletCode;
    var x := WalletsCode(s, p);
    if s == [] {
      assert x[0] == 0 && t == [];
      assert x[1..] == p && x[1..] == q;
    } else {
      assert x[0] == 1 && t != [];
      var a, b := WalletsCode(s[1..], p), WalletsCode(t[1..], q);
      assert x[1..] == WalletCode(s[0], a) && x[1..] == WalletCode(t[0], b);
      WalletPrefix(s[0], t[0], a, b);
      WalletsPrefix(s[1..], t[1..], p, q);
      assert s == [s[0]] + s[1..] && t == [t[0]] + t[1..];
    }
  }

  lemma BackupCodeInjective(a: Backup, b: Backup)
    requires BackupCode(a) == BackupCode(b)
    ensures a == b
  {
    hide Unary, WalletsCode;
    UnaryPrefix(a.version, b.version, WalletsCode(a.wallets, []), WalletsCode(b.wallets, []));
    WalletsPrefix(a.wallets, b.wallets, [], []);
  }

  lemma ShareCodeInjective(s: RecoveryShare, t: RecoveryShare)
    requires ShareCode(s) == ShareCode(t)
    ensures s == t
  {
    hide Unary, TextCode;
    var s7, t7 := TextCode(s.checksum), TextCode(t.checksum);
    var s6, t6 := TextCode(s.data) + s7, TextCode(t.data) + t7;
    var s5, t5 := TextCode(s.role) + s6, TextCode(t.role) + t6;
    var s4, t4 := Unary(s.index) + s5, Unary(t.index) + t5;
    var s3, t3 := Unary(s.total) + s4, Unary(t.total) + t4;
    var s2, t2 := Unary(s.threshold) + s3, Unary(t.threshold) + t3;
    UnaryPrefix(s.version, t.version, TextCode(s.packageID) + s2, TextCode(t.packageID) + t2);
    TextPrefix(s.packageID, t.packageID, s2, t2);
    UnaryPrefix(s.threshold, t.threshold, s3, t3);
    UnaryPrefix(s.total, t.total, s4, t4);
    UnaryPrefix(s.index, t.index, s5, t5);
    TextPrefix(s.role, t.role, s6, t6);
    TextPrefix(s.data, t.data, s7, t7);
    TextCodeInjective(s.checksum, t.checksum);
  }

  lemma LocatorCodeInjective(l: Locator, m: Locator)
    requires LocatorCode(l) == LocatorCode(m)
    ensures l == m
  {
    hide Unary, TextCode;
    var l2, m2 := TextCode(l.packageID) + TextCode(l.recoveryMode), TextCode(m.packageID) + TextCode(m.recoveryMode);
    UnaryPrefix(l.version, m.version, TextCode(l.accountID) + l2, TextCode(m.accountID) + m2);
    TextPrefix(l.accountID, m.accountID, l2, m2);
    TextPrefix(l.packageID, m.packageID, TextCode(l.recoveryMode), TextCode(m.recoveryMode));
    TextCodeInjective(l.recoveryMode, m.recoveryMode);
  }

  ghost function ParseBackup(x: Bytes): Option<Backup> {
    if exists b :: BackupCode(b) == x then (var b :| BackupCode(b) == x; Some(b)) else None
  }

  ghost function ParseShare(x: Bytes): Option<RecoveryShare> {
    if exists s :: ShareCode(s) == x then (var s :| ShareCode(s) == x; Some(s)) else None
  }

  ghost function ParseLocator(x: Bytes): Option<Locator> {
    if exists l :: LocatorCode(l) == x then (var l :| LocatorCode(l) == x; Some(l)) else None
  }

  // ---- A cipher ----

  /** A one before every byte, and a zero at the end. */
  function Frame(a: Bytes): (f: Bytes)
    ensures f != []
  {
    if a == [] then [0] else [1, a[0]] + Frame(a[1..])
  }

  lemma {:induction false} FramePrefix(a: Bytes, p: Bytes, a': Bytes, p': Bytes)
    requires Frame(a) + p == Frame(a') + p'
    ensures a == a' && p == p'
  {
    var s := Frame(a) + p;
    assert s[0] == Frame(a)[0] == Frame(a')[0];
    if a == [] {
      assert s[1..] == p && s[1..] == p';
    } else {
      assert s[1] == a[0] && s[1] == a'[0];
      assert s[2..] == Frame(a[1..]) + p && s[2..] == Frame(a'[1..]) + p';
      FramePrefix(a[1..], p, a'[1..], p');
      assert a == [a[0]] + a[1..] && a' == [a'[0]] + a'[1..];
    }
  }

  function Seal(k: Bytes, n: Bytes, p: Bytes, a: Bytes): Bytes { Frame(a) + p }

  function Open(k: Bytes, n: Bytes, x: Bytes, a: Bytes): Option<Bytes> {
    if Frame(a) <= x then Some(x[|Frame(a)|..]) else None
  }

  // ---- The suite ----

  /** This cipher, these codes, constant digests, and one fixed shared secret. */
  ghost function Sample(): Suite {
    Suite(
      hmac := (k, m) => seq(32, _ => 0), seal := Seal, open := Open,
      publicKey := d => seq(32, _ => 0), exchange := (d, e) => Some([1]), utf8 := TextCode,
      backupJson := BackupCode, parseBackup := ParseBackup, shareJson := ShareCode, parseShare := ParseShare,
      locatorJson := LocatorCode, parseLocator := ParseLocator,
      shareDigest := s => seq(16, _ => '0'), envelopeDigest := e => seq(64, _ => '0'),
      capsuleDigest := g => seq(64, _ => '0'),
      mnemonicValid := m => true,
      knowledge := (id, share, questions, stream) =>
        Some((DkvsCapsule(VERSION, id, "", "", ""), KnowledgeBundle(VERSION, id, []), 0)))
  }

  lemma SampleCipher()
    ensures AeadLaws(Sample()) && Unforgeable(Sample())
  {
    var c := Sample();
    forall k, n, p, a
      ensures c.open(k, n, c.seal(k, n, p, a), a) == Some(p)
    {
      assert (Frame(a) + p)[..|Frame(a)|] == Frame(a) && (Frame(a) + p)[|Frame(a)|..] == p;
    }
    forall k, p, a, k', p', a', n
      ensures !Forgery(c, k, p, a, k', p', a', n)
    {
      if Frame(a) + p == Frame(a') + p' {
        FramePrefix(a, p, a', p');
      }
    }
  }

  lemma SampleTexts()
    ensures TextLaws(Sample())
  {
    hide BackupCode, ShareCode, LocatorCode, TextCode;
    var c := Sample();
    forall s, t | TextCode(s) == TextCode(t)
      ensures s == t
    {
      TextCodeInjective(s, t);
    }
    forall b
      ensures c.parseBackup(c.backupJson(b)) == Some(b)
    {
      BackupCodeInjective(b, ParseBackup(BackupCode(b)).value);
    }
    forall s
      ensures c.parseShare(c.shareJson(s)) == Some(s)
    {
      ShareCodeInjective(s, ParseShare(ShareCode(s)).value);
    }
    forall l
      ensures c.parseLocator(c.locatorJson(l)) == Some(l)
    {
      LocatorCodeInjective(l, ParseLocator(LocatorCode(l)).value);
    }
  }

  /** All the laws hold together, of a cipher without forgeries. */
  lemma LawsAreConsistent()
    ensures Lawful(Sample()) && Unforgeable(Sample())
  {
    SampleCipher();
    SampleTexts();
  }
}
