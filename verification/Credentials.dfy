// The PRF-wrapped unlock password of pwa/utils/biometricCredentials.ts: creating a credential, and
// verifying it with a fallback between the two WebAuthn PRF modes.

module Credentials {
  import opened Basics
  import opened Base64
  import opened Base64Url
  import opened Encodings

  datatype Mode = EvalByCredential | Eval

  datatype Credential = Credential(
    id: string, isActive: bool, prfMode: Option<Mode>, salt: string, iv: string, encryptedPassword: string)

  /** The JSON object in storage, entries in order. */
  type Entries = seq<Credential>

  datatype Stored = Absent | Corrupt | Saved(entries: Entries)

  /**
   * WebAuthn's PRF as a function of credential and salt (section 10.1.4 of Web Authentication Level 3),
   * AES-GCM by key, nonce and text, and the UTF-8 encoder and decoder, which drops a leading byte order mark.
   */
  datatype Crypto = Crypto(
    prf: (Bytes, Bytes) -> Bytes,
    encrypt: (Bytes, Bytes, Bytes) -> Bytes, decrypt: (Bytes, Bytes, Bytes) -> Option<Bytes>,
    encode: string -> Bytes, decode: Bytes -> string)

  ghost predicate Lawful(crypto: Crypto) {
    && (forall key, iv, text {:trigger crypto.encrypt(key, iv, text)} ::
          crypto.decrypt(key, iv, crypto.encrypt(key, iv, text)) == Some(text))
    && (forall id, salt {:trigger crypto.prf(id, salt)} :: ValidKey(crypto.prf(id, salt)))
    && (forall s {:trigger crypto.encode(s)} :: crypto.decode(crypto.encode(s)) == WithoutMark(s))
  }

  predicate Marked(s: string) { s != "" && s[0] == '\U{FEFF}' }

  function WithoutMark(s: string): (r: string)
    ensures r == s <==> !Marked(s)
  {
    if Marked(s) then s[1..] else s
  }

  /** A length importKey accepts for AES-GCM. */
  predicate ValidKey(key: Bytes) { |key| == 16 || |key| == 24 || |key| == 32 }

  /** How the platform ends one PRF assertion. */
  datatype Reply = Yields | Nothing | Recoverable | Fatal

  /** How the platform ends credential creation; `direct` says that it already evaluated the PRF. */
  datatype Creation = Refused | Created(rawId: Bytes, enabled: bool, direct: bool)

  function BytesOf(value: string): Option<Bytes> {
    match Decoded(value)
    case Some(s) => Some(FromCodes(CharCodes(s)))
    case None => None
  }

  lemma BytesOfEncoded(bytes: Bytes)
    ensures BytesOf(RawUrlEncode(bytes)) == Some(bytes)
  {
    hide Decoded, RawUrlEncode, CharCodes, FromCodes, Binary;
    UrlRoundTrip(bytes);
  }

  /** The two modes in the order tried: the stored one first, else the platform's preference. */
  function Modes(stored: Option<Mode>, apple: bool): (r: seq<Mode>)
    ensures |r| == 2 && r[0] != r[1] && (stored.Some? ==> r[0] == stored.value)
  {
    match stored
    case Some(EvalByCredential) => [EvalByCredential, Eval]
    case Some(Eval) => [Eval, EvalByCredential]
    case None => if apple then [EvalByCredential, Eval] else [Eval, EvalByCredential]
  }

  /** The mode that succeeds, and the number of attempts: a fatal error ends the search, anything else moves on. */
  function Search(modes: seq<Mode>, replies: Mode -> Reply): (r: (Option<Mode>, nat))
    ensures r.1 <= |modes| && (r.0.Some? ==> r.0.value in modes && replies(r.0.value) == Yields)
  {
    if modes == [] then (None, 0)
    else match replies(modes[0])
      case Yields => (Some(modes[0]), 1)
      case Fatal => (None, 1)
      case _ => var rest := Search(modes[1..], replies); (rest.0, rest.1 + 1)
  }

  /**
   * At most two modes are tried; the output comes exactly when the first yields, or yields nothing fatal and
   * the second does.
   */
  lemma SearchModes(stored: Option<Mode>, apple: bool, replies: Mode -> Reply)
    ensures var m := Modes(stored, apple); var r := Search(m, replies);
            && m[0] == (if stored.Some? then stored.value else if apple then EvalByCredential else Eval)
            && m[1] == (if m[0] == Eval then EvalByCredential else Eval)
            && r.1 <= 2
            && (r.0 == Some(m[0]) <==> replies(m[0]) == Yields)
            && (r.0 == Some(m[1]) <==>
                  (replies(m[0]) == Nothing || replies(m[0]) == Recoverable) && replies(m[1]) == Yields)
            && (r.1 == 1 <==> replies(m[0]) == Yields || replies(m[0]) == Fatal)
  {
    var m := Modes(stored, apple);
    assert m[1..] == [m[1]] && m[1..][1..] == [];
  }

  function Key(crypto: Crypto, c: Credential): Option<Bytes> {
    match (BytesOf(c.id), BytesOf(c.salt))
    case (Some(id), Some(salt)) => Some(crypto.prf(id, salt))
    case _ => None
  }

  /** getPrfOutput: the key and the mode that gave it, None when it throws. */
  function PrfOutput(crypto: Crypto, c: Credential, apple: bool, replies: Mode -> Reply): Option<(Bytes, Mode)> {
    match (Key(crypto, c), Search(Modes(c.prfMode, apple), replies).0)
    case (Some(key), Some(mode)) => Some((key, mode))
    case _ => None
  }

  /** decryptPasswordWithPrf. */
  function Opened(crypto: Crypto, c: Credential, key: Bytes): Option<string> {
    var iv, sealed := BytesOf(c.iv), BytesOf(c.encryptedPassword);
    if iv.None? || sealed.None? || !ValidKey(key) then None
    else
      var text := crypto.decrypt(key, iv.value, sealed.value);
      if text.None? then None else Some(crypto.decode(text.value))
  }

  /** The credential that wraps a password under an authenticator, a salt and a nonce. */
  function Wrapping(crypto: Crypto, rawId: Bytes, salt: Bytes, iv: Bytes, password: string,
                    mode: Option<Mode>): Credential {
    Credential(RawUrlEncode(rawId), true, mode, RawUrlEncode(salt), RawUrlEncode(iv),
               RawUrlEncode(crypto.encrypt(crypto.prf(rawId, salt), iv, crypto.encode(password))))
  }

  /** Whatever mode is recorded, a wrapping credential opens to its password under its own key. */
  lemma WrappingOpens(crypto: Crypto, rawId: Bytes, salt: Bytes, iv: Bytes, password: string, mode: Option<Mode>)
    requires Lawful(crypto)
    ensures var c := Wrapping(crypto, rawId, salt, iv, password, mode);
            && Key(crypto, c) == Some(crypto.prf(rawId, salt))
            && Opened(crypto, c, crypto.prf(rawId, salt)) == Some(WithoutMark(password))
  {
    hide BytesOf, RawUrlEncode;
    BytesOfEncoded(rawId);
    BytesOfEncoded(salt);
    BytesOfEncoded(iv);
    var key := crypto.prf(rawId, salt);
    BytesOfEncoded(crypto.encrypt(key, iv, crypto.encode(password)));
    assert ValidKey(key);
  }

  // ---- The manager's state ----

  datatype State = State(loaded: bool, memory: Entries, stored: Stored)

  function Load(s: State): Option<State> {
    if s.loaded then Some(s)
    else match s.stored
      case Absent => Some(s.(loaded := true))
      case Saved(entries) => Some(s.(loaded := true, memory := entries))
      case Corrupt => None
  }

  function Save(s: State, saves: bool): State { if saves then s.(stored := Saved(s.memory)) else s }

  function FirstActive(entries: Entries): (r: nat)
    ensures r <= |entries| && (r < |entries| ==> entries[r].isActive)
    ensures forall i :: 0 <= i < r ==> !entries[i].isActive
  {
    if entries == [] || entries[0].isActive then 0 else 1 + FirstActive(entries[1..])
  }

  /** createCredential; None when it reports failure. */
  function Create(crypto: Crypto, s: State, password: string, apple: bool, salt: Bytes, iv: Bytes,
                  creation: Creation, replies: Mode -> Reply, saves: bool): (State, bool)
  {
    match Load(s)
    case None => (s, false)
    case Some(l) =>
      if creation.Refused? || (!apple && !creation.enabled) then (l, false)
      else
        var bare := Credential(RawUrlEncode(creation.rawId), true, None, RawUrlEncode(salt), "", "");
        var output: Option<(Bytes, Mode)> :=
          if apple && creation.direct then Some((crypto.prf(creation.rawId, salt), Eval))
          else PrfOutput(crypto, bare, apple, replies);
        match output
        case None => (l, false)
        case Some((key, mode)) =>
          if !ValidKey(key) then (l, false)
          else
            var sealed := crypto.encrypt(key, iv, crypto.encode(password));
            var c := bare.(prfMode := Some(mode), iv := RawUrlEncode(iv), encryptedPassword := RawUrlEncode(sealed));
            (Save(l.(memory := [c]), saves), saves)
  }

  /** verifyCredential: the password handed back, if any. */
  function Verify(crypto: Crypto, s: State, apple: bool, replies: Mode -> Reply, saves: bool): (State, Option<string>) {
    match Load(s)
    case None => (s, None)
    case Some(l) =>
      var k := FirstActive(l.memory);
      if k == |l.memory| then (l, None)
      else match PrfOutput(crypto, l.memory[k], apple, replies)
        case None => (l, None)
        case Some((key, mode)) =>
          match Opened(crypto, l.memory[k], key)
          case None => (l, None)
          case Some(password) =>
            (Save(l.(memory := l.memory[k := l.memory[k].(prfMode := Some(mode))]), saves),
             if saves then Some(password) else None)
  }

  /** A new page: a fresh manager over the same storage. */
  function Reload(s: State): State { State(false, [], s.stored) }

  datatype Event = Verified(replies: Mode -> Reply, saves: bool) | Reloaded

  function Next(crypto: Crypto, s: State, apple: bool, event: Event): State {
    match event
    case Verified(replies, saves) => Verify(crypto, s, apple, replies, saves).0
    case Reloaded => Reload(s)
  }

  function Run(crypto: Crypto, s: State, apple: bool, events: seq<Event>): State {
    if events == [] then s else Next(crypto, Run(crypto, s, apple, events[..|events| - 1]), apple, events[|events| - 1])
  }

  // ---- Every verification returns the original password ----

  /** One credential wrapping the password, under whatever recorded mode. */
  predicate Wraps(crypto: Crypto, entries: Entries, rawId: Bytes, salt: Bytes, iv: Bytes, password: string) {
    |entries| == 1 && entries[0] == Wrapping(crypto, rawId, salt, iv, password, entries[0].prfMode)
  }

  /** Memory, once loaded, and storage both hold a credential wrapping the password. */
  predicate Holds(crypto: Crypto, s: State, rawId: Bytes, salt: Bytes, iv: Bytes, password: string) {
    && s.stored.Saved? && Wraps(crypto, s.stored.entries, rawId, salt, iv, password)
    && (s.loaded ==> Wraps(crypto, s.memory, rawId, salt, iv, password))
  }

  /** Creation gets as far as its final save. */
  predicate Reaches(s: State, apple: bool, creation: Creation, replies: Mode -> Reply) {
    && Load(s).Some? && creation.Created? && (apple || creation.enabled)
    && ((apple && creation.direct) || Search(Modes(None, apple), replies).0.Some?)
  }

  /**
   * A creation succeeds exactly when it reaches its save and the save works; once it reaches the save the
   * new credential is in memory either way; before that only the load has happened.
   */
  lemma CreateExactly(crypto: Crypto, s: State, password: string, apple: bool, salt: Bytes, iv: Bytes,
                      creation: Creation, replies: Mode -> Reply, saves: bool)
    requires Lawful(crypto)
    ensures var (after, ok) := Create(crypto, s, password, apple, salt, iv, creation, replies, saves);
            && (ok <==> Reaches(s, apple, creation, replies) && saves)
            && (if Reaches(s, apple, creation, replies) then
                  && after.loaded && Wraps(crypto, after.memory, creation.rawId, salt, iv, password)
                  && after.stored == (if saves then Saved(after.memory) else s.stored)
                  && after.memory[0].prfMode ==
                       (if apple && creation.direct then Some(Eval) else Search(Modes(None, apple), replies).0)
                else after == (if Load(s).Some? then Load(s).value else s))
  {
    hide BytesOf, RawUrlEncode, Search, Modes;
    if creation.Created? {
      BytesOfEncoded(creation.rawId);
      BytesOfEncoded(salt);
      assert ValidKey(crypto.prf(creation.rawId, salt));
    }
  }

  /** Loading fails only on corrupt storage, happens once, and takes up what is stored. */
  lemma LoadsExactly(s: State)
    ensures Load(s).None? <==> !s.loaded && s.stored == Corrupt
    ensures s.loaded ==> Load(s) == Some(s)
    ensures !s.loaded && s.stored != Corrupt ==>
              Load(s) == Some(State(true, if s.stored.Saved? then s.stored.entries else s.memory, s.stored))
  {
  }

  lemma CreateHolds(crypto: Crypto, s: State, password: string, apple: bool, salt: Bytes, iv: Bytes,
                    creation: Creation, replies: Mode -> Reply)
    requires Lawful(crypto) && Reaches(s, apple, creation, replies)
    ensures Holds(crypto, Create(crypto, s, password, apple, salt, iv, creation, replies, true).0,
                  creation.rawId, salt, iv, password)
  {
    hide Create, Wraps;
    CreateExactly(crypto, s, password, apple, salt, iv, creation, replies, true);
  }

  /** The entries a verification works on. */
  function Current(s: State): Entries {
    if s.loaded then s.memory else if s.stored.Saved? then s.stored.entries else []
  }

  /** A verification finds the key of the credential it works on. */
  predicate Yielding(s: State, apple: bool, replies: Mode -> Reply)
    requires |Current(s)| == 1
  {
    Search(Modes(Current(s)[0].prfMode, apple), replies).0.Some?
  }

  /**
   * Over a credential wrapping the password, a verification hands the password back exactly when a mode
   * yields PRF output and the save works, and leaves memory wrapping it; only a working save touches storage.
   */
  lemma VerifyReturns(crypto: Crypto, s: State, rawId: Bytes, salt: Bytes, iv: Bytes, password: string,
                      apple: bool, replies: Mode -> Reply, saves: bool)
    requires Lawful(crypto) && Load(s).Some? && Wraps(crypto, Current(s), rawId, salt, iv, password)
    ensures var (after, result) := Verify(crypto, s, apple, replies, saves);
            && after.loaded && Wraps(crypto, after.memory, rawId, salt, iv, password)
            && result == (if Yielding(s, apple, replies) && saves then Some(WithoutMark(password)) else None)
            && (result == Some(password) <==> Yielding(s, apple, replies) && saves && !Marked(password))
            && after.stored == (if Yielding(s, apple, replies) && saves then Saved(after.memory) else s.stored)
            && (Yielding(s, apple, replies) ==>
                  after.memory[0].prfMode == Search(Modes(Current(s)[0].prfMode, apple), replies).0)
  {
    hide RawUrlEncode, BytesOf, Key, Opened, Search, Modes;
    WrappingOpens(crypto, rawId, salt, iv, password, Current(s)[0].prfMode);
  }

  lemma {:induction false} RunHolds(crypto: Crypto, s: State, rawId: Bytes, salt: Bytes, iv: Bytes, password: string,
                                    apple: bool, events: seq<Event>)
    requires Lawful(crypto) && Holds(crypto, s, rawId, salt, iv, password)
    ensures Holds(crypto, Run(crypto, s, apple, events), rawId, salt, iv, password)
    decreases |events|
  {
    hide Wraps, Verify, Yielding;
    if events == [] {
    } else {
      RunHolds(crypto, s, rawId, salt, iv, password, apple, events[..|events| - 1]);
      var before := Run(crypto, s, apple, events[..|events| - 1]);
      var e := events[|events| - 1];
      if e.Verified? {
        VerifyReturns(crypto, before, rawId, salt, iv, password, apple, e.replies, e.saves);
      }
    }
  }

  /**
   * After a successful createCredential, across any number of verifications with any authenticator
   * replies, recorded-mode changes, failing saves and reloads, the next verification gives back the very
   * password that was wrapped, exactly when one of at most two modes yields PRF output and the save
   * works. A password that starts with a byte order mark is the one exception: it comes back without it.
   */
  lemma EveryVerificationReturnsThePassword(
      crypto: Crypto, s: State, password: string, apple: bool, salt: Bytes, iv: Bytes,
      creation: Creation, createReplies: Mode -> Reply, events: seq<Event>, replies: Mode -> Reply, saves: bool)
    requires Lawful(crypto) && Reaches(s, apple, creation, createReplies)
    ensures var (created, ok) := Create(crypto, s, password, apple, salt, iv, creation, createReplies, true);
            var now := Run(crypto, created, apple, events);
            && ok && |Current(now)| == 1
            && var result := Verify(crypto, now, apple, replies, saves).1;
               && (result.Some? <==> Yielding(now, apple, replies) && saves)
               && (result.Some? && !Marked(password) ==> result == Some(password))
               && (result.Some? && Marked(password) ==> result == Some(password[1..]))
  {
    hide Create, Run, Verify, Yielding;
    CreateExactly(crypto, s, password, apple, salt, iv, creation, createReplies, true);
    CreateHolds(crypto, s, password, apple, salt, iv, creation, createReplies);
    var created := Create(crypto, s, password, apple, salt, iv, creation, createReplies, true).0;
    RunHolds(crypto, created, creation.rawId, salt, iv, password, apple, events);
    var now := Run(crypto, created, apple, events);
    VerifyReturns(crypto, now, creation.rawId, salt, iv, password, apple, replies, saves);
  }

  predicate NoReload(events: seq<Event>) { forall i :: 0 <= i < |events| ==> events[i].Verified? }

  lemma {:induction false} RunKeepsMemory(crypto: Crypto, s: State, rawId: Bytes, salt: Bytes, iv: Bytes,
                                          password: string, apple: bool, events: seq<Event>)
    requires Lawful(crypto) && s.loaded && Wraps(crypto, s.memory, rawId, salt, iv, password) && NoReload(events)
    ensures var now := Run(crypto, s, apple, events);
            now.loaded && Wraps(crypto, now.memory, rawId, salt, iv, password)
    decreases |events|
  {
    hide Wraps, Verify, Yielding;
    if events == [] {
    } else {
      var before := Run(crypto, s, apple, events[..|events| - 1]);
      var e := events[|events| - 1];
      RunKeepsMemory(crypto, s, rawId, salt, iv, password, apple, events[..|events| - 1]);
      VerifyReturns(crypto, before, rawId, salt, iv, password, apple, e.replies, e.saves);
    }
  }

  /**
   * A creation whose only failure is its final save reports failure, yet every verification before the
   * next reload works on the new credential; a reload straight away goes back to the stored one, while a
   * verification whose own save works has stored the new one.
   */
  lemma FailedSaveReplacesMemory(crypto: Crypto, s: State, password: string, apple: bool, salt: Bytes, iv: Bytes,
                                 creation: Creation, createReplies: Mode -> Reply,
                                 events: seq<Event>, replies: Mode -> Reply, saves: bool)
    requires Lawful(crypto) && Reaches(s, apple, creation, createReplies) && NoReload(events)
    ensures var (after, ok) := Create(crypto, s, password, apple, salt, iv, creation, createReplies, false);
            var now := Run(crypto, after, apple, events);
            var (last, result) := Verify(crypto, now, apple, replies, saves);
            && !ok && Reload(after) == Reload(s)
            && |Current(now)| == 1
            && result == (if Yielding(now, apple, replies) && saves then Some(WithoutMark(password)) else None)
            && (result.Some? ==>
                  last.stored.Saved? && Wraps(crypto, last.stored.entries, creation.rawId, salt, iv, password))
  {
    hide Create, Run, Verify, Yielding;
    CreateExactly(crypto, s, password, apple, salt, iv, creation, createReplies, false);
    var after := Create(crypto, s, password, apple, salt, iv, creation, createReplies, false).0;
    RunKeepsMemory(crypto, after, creation.rawId, salt, iv, password, apple, events);
    VerifyReturns(crypto, Run(crypto, after, apple, events), creation.rawId, salt, iv, password, apple, replies, saves);
  }

  /** The laws ask for nothing contradictory. */
  lemma LawsAreConsistent() returns (crypto: Crypto)
    ensures Lawful(crypto)
  {
    crypto := Crypto((id, salt) => seq(32, _ => 0), (k, iv, t) => t, (k, iv, t) => Some(t), TextCode,
                     b => if TextOf(b).Some? then WithoutMark(TextOf(b).value) else "");
    forall s
      ensures crypto.decode(crypto.encode(s)) == WithoutMark(s)
    {
      TextOfCode(s);
    }
  }

  // ---- The manager itself ----

  class CredentialStorage {
    var value: Stored

    constructor (value: Stored)
      ensures this.value == value
    {
      this.value := value;
    }
  }

  class BiometricCredentialManager {
    const crypto: Crypto
    const apple: bool
    const storage: CredentialStorage
    var credentials: Entries
    var initialized: bool

    constructor (crypto: Crypto, apple: bool, storage: CredentialStorage)
      ensures this.crypto == crypto && this.apple == apple && this.storage == storage
      ensures View() == State(false, [], storage.value)
    {
      this.crypto, this.apple, this.storage := crypto, apple, storage;
      credentials, initialized := [], false;
    }

    function View(): State
      reads this, storage
    {
      State(initialized, credentials, storage.value)
    }

    method EnsureLoaded() returns (ok: bool)
      modifies this
      ensures ok <==> Load(old(View())).Some?
      ensures ok ==> View() == Load(old(View())).value
      ensures !ok ==> View() == old(View())
    {
      if initialized {
        return true;
      }
      match storage.value {
        case Saved(entries) => credentials := entries;
        case Corrupt => return false;
        case Absent =>
      }
      initialized := true;
      ok := true;
    }

    method SaveCredentials(works: bool) returns (ok: bool)
      modifies storage
      ensures ok == works && View() == Save(old(View()), works)
    {
      if works {
        storage.value := Saved(credentials);
      }
      ok := works;
    }

    /** One assertion; None when it yields nothing, and `fatal` when the error must not be retried. */
    method TryGetPrfOutput(c: Credential, reply: Reply) returns (output: Option<Bytes>, fatal: bool)
      ensures output.Some? <==> Key(crypto, c).Some? && reply == Yields
      ensures output.Some? ==> output == Key(crypto, c)
      ensures fatal <==> Key(crypto, c).None? || reply == Fatal
    {
      hide Decoded;
      var salt := FromBase64Url(c.salt);
      if salt.None? {
        return None, true;
      }
      var id := FromBase64Url(c.id);
      if id.None? {
        return None, true;
      }
      output := if reply == Yields then Some(crypto.prf(id.value[..], salt.value[..])) else None;
      fatal := reply == Fatal;
    }

    method GetPrfOutput(c: Credential, replies: Mode -> Reply) returns (r: Option<(Bytes, Mode)>, attempts: nat)
      ensures r == PrfOutput(crypto, c, apple, replies)
      ensures attempts <= 2
    {
      hide Key, Modes;
      var modes := Modes(c.prfMode, apple);
      attempts := 0;
      for i := 0 to |modes|
        invariant attempts == i
        invariant Search(modes, replies).0 == Search(modes[i..], replies).0
        invariant i > 0 ==> Key(crypto, c).Some?
      {
        assert modes[i..][1..] == modes[i + 1..];
        attempts := attempts + 1;
        var output, fatal := TryGetPrfOutput(c, replies(modes[i]));
        if output.Some? {
          return Some((output.value, modes[i])), attempts;
        }
        if fatal {
          return None, attempts;
        }
      }
      assert modes[|modes|..] == [];
      r := None;
    }

    method CreateCredential(password: string, salt: Bytes, iv: Bytes, creation: Creation, replies: Mode -> Reply,
                            saves: bool)
      returns (success: bool)
      modifies this, storage
      ensures View() == Create(crypto, old(View()), password, apple, salt, iv, creation, replies, saves).0
      ensures success == Create(crypto, old(View()), password, apple, salt, iv, creation, replies, saves).1
    {
      hide PrfOutput, RawUrlEncode;
      var loaded := EnsureLoaded();
      if !loaded {
        return false;
      }
      if creation.Refused? || (!apple && !creation.enabled) {
        return false;
      }
      var id := ToBase64Url(creation.rawId);
      var encodedSalt := ToBase64Url(salt);
      var c := Credential(id, true, None, encodedSalt, "", "");
      var output: Option<(Bytes, Mode)> := None;
      if apple && creation.direct {
        output := Some((crypto.prf(creation.rawId, salt), Eval));
      } else {
        var found, _ := GetPrfOutput(c, replies);
        output := found;
      }
      if output.None? || !ValidKey(output.value.0) {
        return false;
      }
      var encodedIv := ToBase64Url(iv);
      var sealed := ToBase64Url(crypto.encrypt(output.value.0, iv, crypto.encode(password)));
      c := c.(prfMode := Some(output.value.1), iv := encodedIv, encryptedPassword := sealed);
      credentials := [c];
      success := SaveCredentials(saves);
    }

    method VerifyCredential(replies: Mode -> Reply, saves: bool) returns (password: Option<string>)
      modifies this, storage
      ensures View() == Verify(crypto, old(View()), apple, replies, saves).0
      ensures password == Verify(crypto, old(View()), apple, replies, saves).1
    {
      hide PrfOutput, Decoded;
      var loaded := EnsureLoaded();
      if !loaded {
        return None;
      }
      var k := FirstActive(credentials);
      if k == |credentials| {
        return None;
      }
      var c := credentials[k];
      var output, _ := GetPrfOutput(c, replies);
      if output.None? || !ValidKey(output.value.0) {
        return None;
      }
      var iv := FromBase64Url(c.iv);
      if iv.None? {
        return None;
      }
      var sealed := FromBase64Url(c.encryptedPassword);
      if sealed.None? {
        return None;
      }
      var text := crypto.decrypt(output.value.0, iv.value[..], sealed.value[..]);
      if text.None? {
        return None;
      }
      credentials := credentials[k := c.(prfMode := Some(output.value.1))];
      var saved := SaveCredentials(saves);
      password := if saved then Some(crypto.decode(text.value)) else None;
    }
  }
}
