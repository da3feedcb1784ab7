// The safety assessment before value-moving channel operations,
// pwa/composables/usePwaAgentAdapterSafety.ts.

module AgentSafety {
  import opened Basics
  import opened JsonValues
  import opened JavaScript

  const VALUE_MOVEMENTS: set<string> := {
    "stp.close", "stp.splicing_in", "stp.splicing_out", "stp.lock", "stp.lock_with_expand", "stp.unlock"}

  const SAFE_COVERAGE: set<string> := {"NO_REVOKED_REMOTE_STATE", "COVERED"}

  /** The first of the keys with a value; JNull stands in for undefined. */
  function Pick(value: Json, keys: seq<string>): (r: Json)
    ensures r != JNull ==>
              value.JObject? && exists i :: 0 <= i < |keys| && keys[i] in value.fields && value.fields[keys[i]] == r
    ensures value.JObject? && r == JNull ==>
              forall i :: 0 <= i < |keys| && keys[i] in value.fields ==> value.fields[keys[i]] == JNull
  {
    if keys == [] || !value.JObject? then JNull
    else
      var first := Field(value.fields, keys[0]);
      if first != JNull then first else Pick(value, keys[1..])
  }

  /** String(value || '').trim().toUpperCase(); None when String() throws. */
  function NormalizedStatus(value: Json): Option<string> {
    if !Truthy(value) then Some("")
    else match StringOf(value)
      case Some(s) => Some(ToUpperCase(Trim(s)))
      case None => None
  }

  function StatusOf(report: Json): Json { Pick(report, ["status", "Status"]) }

  /** `pick(...) || {}`. */
  function CoverageOf(report: Json): Json {
    var c := Pick(report, ["punish_coverage", "punishCoverage", "PunishCoverage"]);
    if Truthy(c) then c else JObject(map[])
  }

  /** Either spelling of the status, and any of the three of the coverage, in that order; absent ones read as none. */
  lemma Spellings(fields: map<string, Json>)
    ensures var s := if Field(fields, "status") != JNull then Field(fields, "status") else Field(fields, "Status");
            StatusOf(JObject(fields)) == s
    ensures var c := if Field(fields, "punish_coverage") != JNull then Field(fields, "punish_coverage")
                     else if Field(fields, "punishCoverage") != JNull then Field(fields, "punishCoverage")
                     else Field(fields, "PunishCoverage");
            CoverageOf(JObject(fields)) == if Truthy(c) then c else JObject(map[])
  {
    var report := JObject(fields);
    PickCons(report, "status", ["Status"]);
    PickCons(report, "Status", []);
    PickCons(report, "punish_coverage", ["punishCoverage", "PunishCoverage"]);
    PickCons(report, "punishCoverage", ["PunishCoverage"]);
    PickCons(report, "PunishCoverage", []);
    assert ["status"] + ["Status"] == ["status", "Status"] && ["Status"] + [] == ["Status"];
    assert ["PunishCoverage"] + [] == ["PunishCoverage"];
    assert ["punishCoverage"] + ["PunishCoverage"] == ["punishCoverage", "PunishCoverage"];
    assert ["punish_coverage"] + ["punishCoverage", "PunishCoverage"] ==
           ["punish_coverage", "punishCoverage", "PunishCoverage"];
  }

  lemma PickCons(report: Json, key: string, keys: seq<string>)
    requires report.JObject?
    ensures Pick(report, [key] + keys) ==
              if Field(report.fields, key) != JNull then Field(report.fields, key) else Pick(report, keys)
    ensures Pick(report, []) == JNull
  {
    assert ([key] + keys)[1..] == keys;
  }

  datatype Assessment = Allowed | NotReady(status: string) | NotCovered(coverage: string) | Throws

  function OrUnknown(s: string): string { if s == "" then "UNKNOWN" else s }

  function Assess(report: Json): Assessment {
    match (NormalizedStatus(StatusOf(report)), NormalizedStatus(StatusOf(CoverageOf(report))))
    case (Some(status), Some(coverage)) =>
      if status != "READY_SAFE" then NotReady(OrUnknown(status))
      else if coverage !in SAFE_COVERAGE then NotCovered(OrUnknown(coverage))
      else Allowed
    case _ => Throws
  }

  /** A report is accepted exactly when both statuses read as safe ones; an absent field never does. */
  lemma AllowedExactly(report: Json)
    ensures Assess(report) == Allowed <==>
              && NormalizedStatus(StatusOf(report)) == Some("READY_SAFE")
              && NormalizedStatus(StatusOf(CoverageOf(report))) in {Some("NO_REVOKED_REMOTE_STATE"), Some("COVERED")}
    ensures Assess(report) == Allowed ==>
              && report.JObject? && Truthy(StatusOf(report))
              && CoverageOf(report).JObject? && Truthy(StatusOf(CoverageOf(report)))
  {
    hide ToUpperCase, Trim, StringOf, Pick;
    assert "" !in SAFE_COVERAGE && "" != "READY_SAFE";
    assert !Truthy(JNull);
  }
}
