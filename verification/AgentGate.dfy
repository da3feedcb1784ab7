// The PWA agent adapter's dispatcher, pwa/composables/usePwaAgentAdapter.ts: which agent operations
// reach the wallet core, and with which arguments.

module AgentGate {
  import opened Basics
  import opened JsonValues
  import opened JavaScript
  import opened AgentSafety

  type Params = map<string, Json>

  /** What a call into the core gives back; an undefined result reads as JNull. */
  datatype Reply = Result(value: Json) | CoreError | Rejects

  /** Number(value): JavaScript's numeric reading, which can also throw. */
  datatype Numeral = Finite(value: real) | NotFinite | Throwing

  /** The replies the core would give, and the two JavaScript primitives left abstract. */
  datatype Core = Core(
    safety: Reply, channelById: Reply, currentChannel: Reply, final: Reply,
    parse: string -> Document, number: Json -> Numeral)

  datatype Wallet = Wallet(hasWallet: bool, address: string, locked: bool)

  predicate Ready(w: Wallet) { w.hasWallet && w.address != "" && !w.locked }

  datatype CoreCall =
    | Close(channel: string, feeRate: real, force: bool)
    | SplicingIn(channel: string, asset: string, utxos: seq<string>, fees: seq<string>, feeRate: real, amount: real)
    | SplicingOut(channel: string, to: string, asset: string, fees: seq<string>, feeRate: real, amount: real)
    | Lock(channel: string, asset: string, amount: real, utxos: seq<string>, feeUtxos: Json)
    | LockWithExpand(channel: string, asset: string, amount: real, feeRate: real)
    | Unlock(channel: string, asset: string, amount: real, feeUtxos: Json)
    | SafetySnapshot(channel: string)
    | GetChannel(channel: string)
    | GetCurrentChannel
    | Other(name: string)

  predicate MovesValue(c: CoreCall) {
    c.Close? || c.SplicingIn? || c.SplicingOut? || c.Lock? || c.LockWithExpand? || c.Unlock?
  }

  datatype Outcome = Succeeded | Failed(code: string) | Rejected

  const APPROVAL_OPERATIONS: set<string> := {
    "wallet.create", "wallet.import", "wallet.export_mnemonic", "wallet.change_password", "wallet.send_assets",
    "stp.open", "stp.close", "stp.splicing_in", "stp.splicing_out", "stp.lock", "stp.lock_with_expand",
    "stp.unlock", "stp.punish_broadcast", "stp.sweep_build"}

  predicate IsAgentOperation(operation: string) { "wallet." <= operation || "stp." <= operation }

  /** Every value-moving operation is an agent operation that needs the user's approval. */
  lemma ValueMovementsNeedApproval(operation: string)
    requires operation in VALUE_MOVEMENTS
    ensures operation in APPROVAL_OPERATIONS && IsAgentOperation(operation)
  {
  }

  /** Everything that spends, moves channel value, reveals or replaces keys or passwords, or punishes, needs it. */
  lemma NeedsApproval(operation: string)
    ensures operation in APPROVAL_OPERATIONS <==>
              || operation in {"wallet.create", "wallet.import", "wallet.export_mnemonic", "wallet.change_password"}
              || operation == "wallet.send_assets" || operation == "stp.open" || operation in VALUE_MOVEMENTS
              || operation in {"stp.punish_broadcast", "stp.sweep_build"}
  {
  }

  // ---- Parameters; None stands for a thrown error ----

  function First(params: Params, names: seq<string>): Json {
    if names == [] then JNull
    else if Field(params, names[0]) != JNull then params[names[0]]
    else First(params, names[1..])
  }

  function ChannelId(params: Params): Option<string> {
    var raw := First(params, ["channel_id", "channel_point", "chan_point", "channelUtxo"]);
    if raw == JNull then Some("")
    else match StringOf(raw)
      case Some(s) => Some(Trim(s))
      case None => None
  }

  function RequireString(params: Params, name: string): (r: Option<string>)
    ensures r.Some? ==> r.value != ""
  {
    var value := Field(params, name);
    if value.JString? && Trim(value.s) != "" then Some(Trim(value.s)) else None
  }

  function RequireAmount(core: Core, params: Params): (r: Option<real>)
    ensures r.Some? ==> r.value > 0.0
  {
    var value := First(params, ["amount", "amount_sats"]);
    var amount := core.number(value);
    if value != JNull && amount.Finite? && amount.value > 0.0 then Some(amount.value) else None
  }

  function OptionalNumber(core: Core, params: Params, name: string, fallback: real): Option<real> {
    var value := Field(params, name);
    if value == JNull then Some(fallback)
    else match core.number(value)
      case Finite(n) => Some(if n > 0.0 then n else fallback)
      case NotFinite => Some(fallback)
      case Throwing => None
  }

  function Strings(items: seq<Json>): Option<seq<string>> {
    if items == [] then Some([])
    else
      var rest := Strings(items[1..]);
      match StringOf(items[0])
      case Some(s) => if rest.None? then None else Some((if s == "" then [] else [s]) + rest.value)
      case None => None
  }

  function AsStringArray(value: Json): Option<seq<string>> { if value.JArray? then Strings(value.items) else Some([]) }

  // ---- The safety report ----

  /** rawChannelJson. */
  function Raw(core: Core, value: Json): Json {
    if !Truthy(value) then JNull
    else if value.JObject? && Field(value.fields, "json").JString? && Field(value.fields, "json").s != "" then
      match core.parse(value.fields["json"].s)
      case Parsed(v) => v
      case Unparsable => JNull
    else value
  }

  /** jsonSuccessPayload. */
  function Payload(core: Core, value: Json): map<string, Json> {
    var parsed := Raw(core, value);
    if parsed.JObject? then parsed.fields else map["result" := if parsed == JNull then value else parsed]
  }

  /** success(operation, payload): the payload's own ok and operation win. */
  function Success(operation: string, payload: map<string, Json>): Json {
    JObject(map["ok" := JBool(true), "operation" := JString(operation)] + payload)
  }

  /** A safety report, an error result in its place, or an exception. */
  datatype Report = Report(fields: Json) | NoReport | Thrown

  /** The object the core itself reported, if it reported one. */
  function CoreReport(core: Core): Option<map<string, Json>> {
    if core.safety.Result? && Truthy(core.safety.value) && Raw(core, core.safety.value).JObject?
    then Some(Raw(core, core.safety.value).fields) else None
  }

  /** The core's own report vouches for the channel: not marked as failed, READY_SAFE, and punishable states covered. */
  predicate CoreVouches(core: Core) {
    match CoreReport(core)
    case None => false
    case Some(fields) =>
      && ("ok" in fields ==> Truthy(fields["ok"]))
      && NormalizedStatus(StatusOf(JObject(fields))) == Some("READY_SAFE")
      && NormalizedStatus(StatusOf(CoverageOf(JObject(fields)))) in {Some("NO_REVOKED_REMOTE_STATE"), Some("COVERED")}
  }

  /** The part of the locally built report that the assessment and its details read. */
  predicate Local(report: Json) {
    && report.JObject?
    && StatusOf(report) in {JString("READY_DEGRADED"), JString("UNSAFE")}
    && StatusOf(CoverageOf(report)) == JString("PUNISH_COVERAGE_UNKNOWN")
  }

  /** A locally built report never passes. */
  lemma LocalNeverPasses(report: Json)
    requires Local(report)
    ensures Assess(report).NotReady?
  {
    hide NormalizedStatus, StatusOf, CoverageOf;
    LocalStatuses();
  }

  lemma LocalStatuses()
    ensures NormalizedStatus(JString("READY_DEGRADED")).Some?
            && NormalizedStatus(JString("READY_DEGRADED")).value != "READY_SAFE"
    ensures NormalizedStatus(JString("UNSAFE")).Some? && NormalizedStatus(JString("UNSAFE")).value != "READY_SAFE"
    ensures NormalizedStatus(JString("PUNISH_COVERAGE_UNKNOWN")).Some?
  {
    hide NormalizedStatus;
    var degraded, unsafe, unknown := "READY_DEGRADED", "UNSAFE", "PUNISH_COVERAGE_UNKNOWN";
    PlainStatus(degraded);
    PlainStatus(unsafe);
    PlainStatus(unknown);
    assert |degraded| != |"READY_SAFE"| && |unsafe| != |"READY_SAFE"|;
  }

  /** Upper-case text without white space normalises to itself. */
  lemma PlainStatus(s: string)
    requires s != "" && forall i :: 0 <= i < |s| ==> PlainChar(s[i])
    ensures NormalizedStatus(JString(s)) == Some(s)
  {
    hide ToUpperCase, IsWhite;
    PlainNotWhite(s[0]);
    PlainNotWhite(s[|s| - 1]);
    UpperPlain(s);
  }

  predicate PlainChar(c: char) { 'A' <= c <= 'Z' || c == '_' }

  lemma PlainNotWhite(c: char)
    requires PlainChar(c)
    ensures !IsWhite(c)
  {
  }

  lemma {:induction false} UpperPlain(s: string)
    requires forall i :: 0 <= i < |s| ==> PlainChar(s[i])
    ensures ToUpperCase(s) == s
  {
    if s == "" {
    } else {
      UpperPlain(s[1..]);
      assert s == [s[0]] + s[1..];
    }
  }

  /** Wrapping a payload in success() leaves the fields the assessment reads as the payload has them. */
  lemma SuccessKeepsStatus(operation: string, payload: map<string, Json>)
    ensures StatusOf(Success(operation, payload)) == StatusOf(JObject(payload))
    ensures CoverageOf(Success(operation, payload)) == CoverageOf(JObject(payload))
    ensures Success(operation, payload).fields["ok"] == if "ok" in payload then payload["ok"] else JBool(true)
  {
    var whole := Success(operation, payload).fields;
    forall k | k != "ok" && k != "operation"
      ensures Field(whole, k) == Field(payload, k)
    {
    }
    PickSame(whole, payload, ["status", "Status"]);
    PickSame(whole, payload, ["punish_coverage", "punishCoverage", "PunishCoverage"]);
  }

  lemma {:induction false} PickSame(whole: map<string, Json>, part: map<string, Json>, keys: seq<string>)
    requires forall i :: 0 <= i < |keys| ==> Field(whole, keys[i]) == Field(part, keys[i])
    ensures Pick(JObject(whole), keys) == Pick(JObject(part), keys)
    decreases |keys|
  {
    if keys == [] {
    } else {
      assert forall i :: 0 <= i < |keys[1..]| ==> keys[1..][i] == keys[i + 1];
      PickSame(whole, part, keys[1..]);
    }
  }

  /** The calls that move value, in order. */
  function Movements(calls: seq<CoreCall>): seq<CoreCall> {
    if calls == [] then []
    else Movements(calls[..|calls| - 1]) + if MovesValue(calls[|calls| - 1]) then [calls[|calls| - 1]] else []
  }

  lemma {:induction false} MovementsOf(calls: seq<CoreCall>, c: CoreCall)
    ensures Movements(calls + [c]) == Movements(calls) + if MovesValue(c) then [c] else []
  {
    assert (calls + [c])[..|calls|] == calls;
  }

  lemma {:induction false} NoMovements(calls: seq<CoreCall>)
    requires forall i :: 0 <= i < |calls| ==> !MovesValue(calls[i])
    ensures Movements(calls) == []
  {
    if calls == [] {
    } else {
      NoMovements(calls[..|calls| - 1]);
    }
  }

  predicate Quiet(calls: seq<CoreCall>) { forall i :: 0 <= i < |calls| ==> !MovesValue(calls[i]) }

  // ---- The dispatcher ----

  method GetAgentChannel(id: string, core: Core) returns (channel: Json, calls: seq<CoreCall>)
    ensures Quiet(calls)
  {
    calls := [];
    if id != "" {
      calls := calls + [GetChannel(id)];
      match core.channelById
      case Result(value) => if Truthy(value) { return Raw(core, value), calls; }
      case _ => return JNull, calls;
    }
    calls := calls + [GetCurrentChannel];
    channel := if core.currentChannel.Result? then Raw(core, core.currentChannel.value) else JNull;
  }

  method TakeSafetySnapshot(operation: string, params: Params, core: Core)
    returns (report: Report, calls: seq<CoreCall>)
    ensures Quiet(calls)
    ensures ChannelId(params).None? ==> report == Thrown
    ensures ChannelId(params).Some? && core.safety.Result? && Truthy(core.safety.value) ==>
              report == Report(Success(operation, Payload(core, core.safety.value)))
    ensures ChannelId(params).Some? && !(core.safety.Result? && Truthy(core.safety.value)) && report.Report? ==>
              Local(report.fields)
  {
    hide ChannelId, Raw, Truthy;
    calls := [];
    var id := ChannelId(params);
    if id.None? {
      return Thrown, calls;
    }
    calls := calls + [SafetySnapshot(id.value)];
    if core.safety.Result? && Truthy(core.safety.value) {
      return Report(Success(operation, Payload(core, core.safety.value))), calls;
    }
    var channel, lookups := GetAgentChannel(id.value, core);
    calls := calls + lookups;
    if !Truthy(channel) {
      return NoReport, calls;
    }
    report := LocalReport(operation, channel, core);
  }

  method LocalReport(operation: string, channel: Json, core: Core) returns (report: Report)
    ensures report.Report? ==> Local(report.fields)
  {
    var local := Truthy(Pick(channel, ["localcommitment", "localCommitment"]));
    var remote := Truthy(Pick(channel, ["remotecommitment", "remoteCommitment"]));
    var height := Pick(channel, ["commitheight", "commitHeight"]);
    if height != JNull && core.number(height).Throwing? {
      return Thrown;
    }
    var missing := [];
    if !local {
      missing := missing + [JString("MISSING_LOCAL_COMMITMENT")];
    }
    if !remote {
      missing := missing + [JString("MISSING_REMOTE_COMMITMENT")];
    }
    missing := missing + [JString("MISSING_PUNISH_COVERAGE")];
    var raw := Pick(channel, ["status"]);
    var number := if raw == JNull then NotFinite else core.number(raw);
    if number.Throwing? {
      return Thrown;
    }
    var ready := number.Finite? && number.value > 0.0 && local && remote && |missing| == 1;
    var coverage := map[
      "status" := JString("PUNISH_COVERAGE_UNKNOWN"), "missing" := JArray([JString("MISSING_PUNISH_COVERAGE")])];
    var status := JString(if ready then "READY_DEGRADED" else "UNSAFE");
    var fields := map[
      "status" := status, "raw_status" := raw,
      "local_commitment_present" := JBool(local), "remote_commitment_present" := JBool(remote),
      "punish_coverage" := JObject(coverage), "missing_evidence" := JArray(missing)];
    report := Report(Success(operation, fields));
    LocalFields(operation, fields, coverage);
  }

  lemma LocalFields(operation: string, fields: map<string, Json>, coverage: map<string, Json>)
    requires "status" in fields && fields["status"] in {JString("READY_DEGRADED"), JString("UNSAFE")}
    requires "punish_coverage" in fields && fields["punish_coverage"] == JObject(coverage)
    requires "status" in coverage && coverage["status"] == JString("PUNISH_COVERAGE_UNKNOWN")
    ensures Local(Success(operation, fields))
  {
    SuccessKeepsStatus(operation, fields);
    assert StatusOf(JObject(fields)) == fields["status"];
    assert CoverageOf(JObject(fields)) == JObject(coverage);
    assert StatusOf(JObject(coverage)) == coverage["status"];
  }

  datatype Verdict = Clear | Blocked | Threw

  /** The preflight clears a value-moving operation exactly when the core's own report vouches for it. */
  method RequireStpSafety(operation: string, params: Params, core: Core)
    returns (verdict: Verdict, calls: seq<CoreCall>)
    requires ChannelId(params).Some?
    ensures Quiet(calls)
    ensures verdict == Clear <==> operation in VALUE_MOVEMENTS ==> CoreVouches(core)
  {
    hide ChannelId, NormalizedStatus, StatusOf, CoverageOf, Raw, Success, VALUE_MOVEMENTS;
    if operation !in VALUE_MOVEMENTS {
      return Clear, [];
    }
    var report;
    report, calls := TakeSafetySnapshot("stp.safety_snapshot", params, core);
    if report.Thrown? {
      return Threw, calls;
    }
    if report.NoReport? {
      return Blocked, calls;
    }
    VerdictOf("stp.safety_snapshot", core, report.fields);
    if !Truthy(Field(report.fields.fields, "ok")) {
      return Blocked, calls;
    }
    verdict := match Assess(report.fields)
      case Allowed => Clear
      case Throws => Threw
      case _ => Blocked;
  }

  predicate Answered(core: Core) { core.safety.Result? && Truthy(core.safety.value) }

  /** What passes the assessment is the core's own vouching report and nothing else. */
  lemma VerdictOf(operation: string, core: Core, report: Json)
    requires if Answered(core) then report == Success(operation, Payload(core, core.safety.value)) else Local(report)
    ensures report.JObject?
    ensures Truthy(Field(report.fields, "ok")) && Assess(report) == Allowed <==> CoreVouches(core)
  {
    hide NormalizedStatus, StatusOf, CoverageOf, Raw, Truthy;
    AllowedExactly(report);
    if Answered(core) {
      var payload := Payload(core, core.safety.value);
      SuccessKeepsStatus(operation, payload);
      assert Truthy(JBool(true)) by { TrueIsTruthy(); }
      if !Raw(core, core.safety.value).JObject? {
        assert StatusOf(JObject(payload)) == JNull by { NoStatus(payload["result"]); }
        Unstated();
      }
    } else {
      LocalNeverPasses(report);
    }
  }

  lemma TrueIsTruthy()
    ensures Truthy(JBool(true))
  {
  }

  lemma NoStatus(value: Json)
    ensures StatusOf(JObject(map["result" := value])) == JNull
  {
  }

  lemma Unstated()
    ensures NormalizedStatus(JNull) != Some("READY_SAFE")
  {
  }

  predicate Permitted(operation: string, params: Params, approved: bool, wallet: Wallet, core: Core) {
    && operation in VALUE_MOVEMENTS && approved && Ready(wallet)
    && ChannelId(params).Some? && ChannelId(params).value != ""
    && CoreVouches(core) && Movement(operation, params, core).Some?
  }

  /** The core call a value-moving operation stands for; None when a parameter is missing or unreadable. */
  function Movement(operation: string, params: Params, core: Core): Option<CoreCall> {
    var id, feeRate := ChannelId(params), OptionalNumber(core, params, "fee_rate", 1.0);
    var asset, amount, to := RequireString(params, "asset"), RequireAmount(core, params), RequireString(params, "to");
    var utxos, fees := AsStringArray(Field(params, "utxos")), AsStringArray(Field(params, "fees"));
    if id.None? then None
    else if operation == "stp.close" then
      if feeRate.Some? then Some(Close(id.value, feeRate.value, Truthy(Field(params, "force")))) else None
    else if asset.None? || amount.None? then None
    else if operation == "stp.splicing_in" then
      if utxos.Some? && fees.Some? && feeRate.Some?
      then Some(SplicingIn(id.value, asset.value, utxos.value, fees.value, feeRate.value, amount.value)) else None
    else if operation == "stp.splicing_out" then
      if to.Some? && fees.Some? && feeRate.Some?
      then Some(SplicingOut(id.value, to.value, asset.value, fees.value, feeRate.value, amount.value)) else None
    else if operation == "stp.lock" then
      if utxos.Some?
      then Some(Lock(id.value, asset.value, amount.value, utxos.value, Field(params, "fee_utxos"))) else None
    else if operation == "stp.lock_with_expand" then
      if feeRate.Some? then Some(LockWithExpand(id.value, asset.value, amount.value, feeRate.value)) else None
    else Some(Unlock(id.value, asset.value, amount.value, Field(params, "fee_utxos")))
  }

  // ---- The arguments, each in terms of the parameters alone ----

  predicate Given(params: Params, name: string) { name in params && params[name] != JNull }

  /** The text under a name, trimmed and not empty. */
  predicate TextArgument(params: Params, name: string, text: string) {
    name in params && params[name].JString? && text == Trim(params[name].s) != ""
  }

  /** The number under `amount`, or under `amount_sats` when that is not given, and positive. */
  predicate AmountArgument(core: Core, params: Params, amount: real) {
    && amount > 0.0
    && if Given(params, "amount") then core.number(params["amount"]) == Finite(amount)
       else Given(params, "amount_sats") && core.number(params["amount_sats"]) == Finite(amount)
  }

  /** The number under `fee_rate` when it is positive and finite, and one otherwise. */
  predicate RateArgument(core: Core, params: Params, rate: real) {
    if !Given(params, "fee_rate") then rate == 1.0
    else match core.number(params["fee_rate"])
      case Finite(n) => rate == if n > 0.0 then n else 1.0
      case NotFinite => rate == 1.0
      case Throwing => false
  }

  /** The entries of a list as texts, without the empty ones, in order. */
  function Texts(items: seq<Json>): seq<string> {
    if items == [] then []
    else
      var last := StringOf(items[|items| - 1]);
      Texts(items[..|items| - 1]) + if last.Some? && last.value != "" then [last.value] else []
  }

  /** The texts of the list under a name; none when there is no list under it. */
  predicate ListArgument(params: Params, name: string, texts: seq<string>) {
    if name in params && params[name].JArray? then
      texts == Texts(params[name].items) && forall item :: item in params[name].items ==> StringOf(item).Some?
    else texts == []
  }

  /** The text of the first name given, trimmed; empty when none is. */
  predicate ChannelArgument(params: Params, id: string) {
    if Given(params, "channel_id") then Spells(params["channel_id"], id)
    else if Given(params, "channel_point") then Spells(params["channel_point"], id)
    else if Given(params, "chan_point") then Spells(params["chan_point"], id)
    else if Given(params, "channelUtxo") then Spells(params["channelUtxo"], id)
    else id == ""
  }

  predicate Spells(value: Json, id: string) { StringOf(value).Some? && id == Trim(StringOf(value).value) }

  /** A call is the one the operation asks for: every argument is what the parameters say. */
  predicate Asked(operation: string, params: Params, core: Core, call: CoreCall) {
    match call
    case Close(channel, rate, force) =>
      && operation == "stp.close" && ChannelArgument(params, channel) && RateArgument(core, params, rate)
      && (force <==> "force" in params && Truthy(params["force"]))
    case SplicingIn(channel, asset, utxos, fees, rate, amount) =>
      && operation == "stp.splicing_in" && ChannelArgument(params, channel) && TextArgument(params, "asset", asset)
      && ListArgument(params, "utxos", utxos) && ListArgument(params, "fees", fees)
      && RateArgument(core, params, rate) && AmountArgument(core, params, amount)
    case SplicingOut(channel, to, asset, fees, rate, amount) =>
      && operation == "stp.splicing_out" && ChannelArgument(params, channel)
      && TextArgument(params, "to", to) && TextArgument(params, "asset", asset)
      && ListArgument(params, "fees", fees) && RateArgument(core, params, rate) && AmountArgument(core, params, amount)
    case Lock(channel, asset, amount, utxos, feeUtxos) =>
      && operation == "stp.lock" && ChannelArgument(params, channel) && TextArgument(params, "asset", asset)
      && AmountArgument(core, params, amount) && ListArgument(params, "utxos", utxos)
      && feeUtxos == (if "fee_utxos" in params then params["fee_utxos"] else JNull)
    case LockWithExpand(channel, asset, amount, rate) =>
      && operation == "stp.lock_with_expand" && ChannelArgument(params, channel)
      && TextArgument(params, "asset", asset) && AmountArgument(core, params, amount)
      && RateArgument(core, params, rate)
    case Unlock(channel, asset, amount, feeUtxos) =>
      && operation == "stp.unlock" && ChannelArgument(params, channel) && TextArgument(params, "asset", asset)
      && AmountArgument(core, params, amount)
      && feeUtxos == (if "fee_utxos" in params then params["fee_utxos"] else JNull)
    case _ => false
  }

  lemma {:induction false} TextsCons(item: Json, rest: seq<Json>)
    ensures Texts([item] + rest) ==
              (if StringOf(item).Some? && StringOf(item).value != "" then [StringOf(item).value] else []) + Texts(rest)
  {
    hide StringOf;
    if rest == [] {
      assert [item] + rest == [item] && [item][..0] == [];
    } else {
      var n := |rest| - 1;
      assert ([item] + rest)[..n + 1] == [item] + rest[..n];
      TextsCons(item, rest[..n]);
    }
  }

  lemma {:induction false} StringsAre(items: seq<Json>)
    ensures Strings(items).Some? <==> forall item :: item in items ==> StringOf(item).Some?
    ensures Strings(items).Some? ==> Strings(items).value == Texts(items)
  {
    hide StringOf;
    if items == [] {
    } else {
      assert items == [items[0]] + items[1..];
      StringsAre(items[1..]);
      TextsCons(items[0], items[1..]);
    }
  }

  lemma NullIsFalse()
    ensures !Truthy(JNull)
  {
  }

  lemma GivenField(params: Params, name: string)
    ensures Given(params, name) <==> Field(params, name) != JNull
    ensures Given(params, name) ==> Field(params, name) == params[name]
  {
  }

  lemma FirstGiven(params: Params, name: string, names: seq<string>)
    ensures First(params, [name] + names) == if Given(params, name) then params[name] else First(params, names)
    ensures First(params, []) == JNull
  {
    GivenField(params, name);
    assert ([name] + names)[1..] == names;
  }

  lemma ListRead(params: Params, name: string, texts: seq<string>)
    ensures AsStringArray(Field(params, name)) == Some(texts) <==> ListArgument(params, name, texts)
  {
    hide StringOf, Strings, Texts;
    if name in params && params[name].JArray? {
      StringsAre(params[name].items);
    }
  }

  lemma TextRead(params: Params, name: string, text: string)
    ensures RequireString(params, name) == Some(text) <==> TextArgument(params, name, text)
  {
    hide Trim;
  }

  lemma AmountRead(core: Core, params: Params, amount: real)
    ensures RequireAmount(core, params) == Some(amount) <==> AmountArgument(core, params, amount)
  {
    FirstGiven(params, "amount", ["amount_sats"]);
    FirstGiven(params, "amount_sats", []);
    assert ["amount"] + ["amount_sats"] == ["amount", "amount_sats"] && ["amount_sats"] + [] == ["amount_sats"];
  }

  lemma RateRead(core: Core, params: Params, rate: real)
    ensures OptionalNumber(core, params, "fee_rate", 1.0) == Some(rate) <==> RateArgument(core, params, rate)
  {
    GivenField(params, "fee_rate");
  }

  lemma ChannelRead(params: Params, id: string)
    ensures ChannelId(params) == Some(id) <==> ChannelArgument(params, id)
  {
    hide StringOf, Trim;
    FirstGiven(params, "channel_id", ["channel_point", "chan_point", "channelUtxo"]);
    FirstGiven(params, "channel_point", ["chan_point", "channelUtxo"]);
    FirstGiven(params, "chan_point", ["channelUtxo"]);
    FirstGiven(params, "channelUtxo", []);
    var fourth := ["channelUtxo"];
    assert fourth + [] == fourth && ["chan_point"] + fourth == ["chan_point", "channelUtxo"];
    assert ["channel_point"] + ["chan_point", "channelUtxo"] == ["channel_point", "chan_point", "channelUtxo"];
    assert ["channel_id"] + ["channel_point", "chan_point", "channelUtxo"] ==
           ["channel_id", "channel_point", "chan_point", "channelUtxo"];
  }

  /** The call of a value-moving operation is exactly the one its parameters ask for. */
  lemma MovementAsked(operation: string, params: Params, core: Core, call: CoreCall)
    requires operation in VALUE_MOVEMENTS
    ensures Movement(operation, params, core) == Some(call) <==> Asked(operation, params, core, call)
  {
    hide ChannelId, OptionalNumber, RequireString, RequireAmount, AsStringArray, Truthy,
         ChannelArgument, RateArgument, TextArgument, AmountArgument, ListArgument;
    assert !Truthy(JNull) by { NullIsFalse(); }
    match call
    case Close(channel, rate, _) =>
      ChannelRead(params, channel);
      RateRead(core, params, rate);
    case SplicingIn(channel, asset, utxos, fees, rate, amount) =>
      ChannelRead(params, channel);
      TextRead(params, "asset", asset);
      ListRead(params, "utxos", utxos);
      ListRead(params, "fees", fees);
      RateRead(core, params, rate);
      AmountRead(core, params, amount);
    case SplicingOut(channel, to, asset, fees, rate, amount) =>
      ChannelRead(params, channel);
      TextRead(params, "to", to);
      TextRead(params, "asset", asset);
      ListRead(params, "fees", fees);
      RateRead(core, params, rate);
      AmountRead(core, params, amount);
    case Lock(channel, asset, amount, utxos, _) =>
      ChannelRead(params, channel);
      TextRead(params, "asset", asset);
      AmountRead(core, params, amount);
      ListRead(params, "utxos", utxos);
    case LockWithExpand(channel, asset, amount, rate) =>
      ChannelRead(params, channel);
      TextRead(params, "asset", asset);
      AmountRead(core, params, amount);
      RateRead(core, params, rate);
    case Unlock(channel, asset, amount, _) =>
      ChannelRead(params, channel);
      TextRead(params, "asset", asset);
      AmountRead(core, params, amount);
    case _ =>
  }

  /** The six value-moving cases: readiness, channel id, safety preflight, then the parameters, then the call. */
  method MoveValue(operation: string, params: Params, wallet: Wallet, core: Core)
    returns (outcome: Outcome, calls: seq<CoreCall>)
    requires operation in VALUE_MOVEMENTS
    ensures Movements(calls) ==
              if Permitted(operation, params, true, wallet, core) then [Movement(operation, params, core).value] else []
    ensures Movements(calls) != [] ==> calls[|calls| - 1] == Movement(operation, params, core).value
    ensures forall c :: c in Movements(calls) ==> Asked(operation, params, core, c)
    ensures !Ready(wallet) ==> calls == []
  {
    hide Asked, ChannelId, RequireString, RequireAmount, OptionalNumber, AsStringArray, Truthy, CoreVouches, Movements,
         VALUE_MOVEMENTS, Field;
    calls := [];
    NoMovements(calls);
    if !wallet.hasWallet || wallet.address == "" {
      return Failed("WALLET_NOT_READY"), calls;
    }
    if wallet.locked {
      return Failed("WALLET_LOCKED"), calls;
    }
    var id := ChannelId(params);
    if id.None? {
      return Failed("INVALID_PARAMS"), calls;
    }
    if id.value == "" {
      return Failed("MISSING_CHANNEL_ID"), calls;
    }
    var verdict;
    verdict, calls := RequireStpSafety(operation, params, core);
    NoMovements(calls);
    if verdict.Blocked? {
      return Failed("SAFETY_BLOCKED"), calls;
    }
    if verdict.Threw? {
      return Failed("INVALID_PARAMS"), calls;
    }
    var call := MovementCall(operation, id.value, params, core);
    if call.None? {
      return Failed("INVALID_PARAMS"), calls;
    }
    MovementsOf(calls, call.value);
    MovementAsked(operation, params, core, call.value);
    calls := calls + [call.value];
    outcome := match core.final
      case Result(_) => Succeeded
      case CoreError => Failed("WASM_ERROR")
      case Rejects => Rejected;
  }

  /** Evaluates one case's arguments; None when one of them throws. */
  method MovementCall(operation: string, id: string, params: Params, core: Core) returns (call: Option<CoreCall>)
    requires ChannelId(params) == Some(id)
    ensures call == Movement(operation, params, core)
    ensures call.Some? ==> MovesValue(call.value)
  {
    hide ChannelId, RequireString, RequireAmount, OptionalNumber, AsStringArray, Truthy, Field;
    var feeRate := OptionalNumber(core, params, "fee_rate", 1.0);
    if operation == "stp.close" {
      return if feeRate.None? then None else Some(Close(id, feeRate.value, Truthy(Field(params, "force"))));
    }
    var asset := RequireString(params, "asset");
    if asset.None? {
      return None;
    }
    var amount := RequireAmount(core, params);
    if amount.None? {
      return None;
    }
    if operation == "stp.splicing_in" {
      var utxos, fees := AsStringArray(Field(params, "utxos")), AsStringArray(Field(params, "fees"));
      if utxos.None? || fees.None? || feeRate.None? {
        return None;
      }
      return Some(SplicingIn(id, asset.value, utxos.value, fees.value, feeRate.value, amount.value));
    } else if operation == "stp.splicing_out" {
      var to, fees := RequireString(params, "to"), AsStringArray(Field(params, "fees"));
      if to.None? || fees.None? || feeRate.None? {
        return None;
      }
      return Some(SplicingOut(id, to.value, asset.value, fees.value, feeRate.value, amount.value));
    } else if operation == "stp.lock" {
      var utxos := AsStringArray(Field(params, "utxos"));
      if utxos.None? {
        return None;
      }
      return Some(Lock(id, asset.value, amount.value, utxos.value, Field(params, "fee_utxos")));
    } else if operation == "stp.lock_with_expand" {
      return if feeRate.None? then None else Some(LockWithExpand(id, asset.value, amount.value, feeRate.value));
    }
    return Some(Unlock(id, asset.value, amount.value, Field(params, "fee_utxos")));
  }

  /** The parameters, besides the channel id, that must be readable before the core is called. */
  function RequiredStrings(operation: string): seq<string> {
    if operation == "wallet.create" then ["password"]
    else if operation == "wallet.import" then ["mnemonic", "password"]
    else if operation == "wallet.export_mnemonic" then ["password"]
    else if operation == "wallet.change_password" then ["old_password", "new_password"]
    else if operation == "wallet.send_assets" then ["to", "asset"]
    else if operation == "stp.punish_build" || operation == "stp.punish_broadcast" then ["commit_txid"]
    else []
  }

  const READY_OPERATIONS: set<string> := {"wallet.export_mnemonic", "wallet.send_assets", "stp.open"}

  const METHODS: set<string> := {
    "wallet.status", "wallet.create", "wallet.import", "wallet.export_mnemonic", "wallet.change_password",
    "wallet.send_assets", "wallet.transaction", "stp.status", "stp.open", "stp.transaction", "stp.safety_snapshot",
    "stp.commitment_export", "stp.punish_status", "stp.punish_build", "stp.punish_broadcast",
    "stp.force_close_plan", "stp.sweep_build"}

  /** Everything but the six: their own core calls are named after the operation and their results left open. */
  method OtherOperation(operation: string, params: Params, wallet: Wallet, core: Core)
    returns (outcome: Outcome, calls: seq<CoreCall>)
    ensures Quiet(calls)
    ensures operation !in METHODS ==> outcome == Failed("UNSUPPORTED_OPERATION") && calls == []
    ensures operation in READY_OPERATIONS && !Ready(wallet) ==> calls == []
    ensures (exists i :: 0 <= i < |RequiredStrings(operation)|
                         && RequireString(params, RequiredStrings(operation)[i]).None?) ==> calls == []
  {
    hide RequiredStrings, RequireString, METHODS, READY_OPERATIONS, ChannelId;
    calls := [];
    if operation !in METHODS {
      return Failed("UNSUPPORTED_OPERATION"), calls;
    }
    if operation in READY_OPERATIONS && !Ready(wallet) {
      return Failed(if wallet.hasWallet && wallet.address != "" then "WALLET_LOCKED" else "WALLET_NOT_READY"), calls;
    }
    var names := RequiredStrings(operation);
    for i := 0 to |names|
      invariant forall j :: 0 <= j < i ==> RequireString(params, names[j]).Some?
    {
      if RequireString(params, names[i]).None? {
        return Failed("INVALID_PARAMS"), calls;
      }
    }
    if operation == "stp.safety_snapshot" {
      var report;
      report, calls := TakeSafetySnapshot(operation, params, core);
      outcome := match report
        case Report(_) => Succeeded
        case NoReport => Failed("MISSING_PEER_CHANNEL_STATE")
        case Thrown => Rejected;
      return;
    }
    calls := calls + [Other(operation)];
    outcome := match core.final
      case Result(_) => Succeeded
      case CoreError => Failed("WASM_ERROR")
      case Rejects => Rejected;
  }

  /**
   * The gate: over all operations, parameters, wallet states and core replies, a close, splice, lock or
   * unlock reaches the core exactly when it is permitted; then it is the one operation and the very
   * arguments asked for, and the last call made. Without approval an operation that needs it makes no
   * call at all.
   */
  method ExecutePwaAgentOperation(operation: string, params: Params, approved: bool, wallet: Wallet, core: Core)
    returns (outcome: Outcome, calls: seq<CoreCall>)
    ensures Movements(calls) ==
              if Permitted(operation, params, approved, wallet, core)
              then [Movement(operation, params, core).value] else []
    ensures Movements(calls) != [] ==> calls[|calls| - 1] == Movement(operation, params, core).value
    ensures forall c :: c in Movements(calls) ==> Asked(operation, params, core, c)
    ensures operation in APPROVAL_OPERATIONS && !approved ==> calls == [] && outcome.Failed?
  {
    hide VALUE_MOVEMENTS, APPROVAL_OPERATIONS, IsAgentOperation, CoreVouches, Movement, ChannelId, Asked;
    if operation in VALUE_MOVEMENTS {
      ValueMovementsNeedApproval(operation);
    }
    if !IsAgentOperation(operation) {
      return Failed("UNSUPPORTED_OPERATION"), [];
    }
    if operation in APPROVAL_OPERATIONS && !approved {
      return Failed("AUTH_REQUIRED"), [];
    }
    if operation in VALUE_MOVEMENTS {
      outcome, calls := MoveValue(operation, params, wallet, core);
    } else {
      outcome, calls := OtherOperation(operation, params, wallet, core);
      NoMovements(calls);
    }
  }
}
