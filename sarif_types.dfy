/**
 * The parts of a SARIF 2.1.0 log that the completion pass of
 * src/lib/sarif-builder.ts reads or writes.
 */
module SarifTypes {
  import opened Wrappers

  /** `physicalLocation.region`; carried along unchanged by completion. */
  datatype Region = Region(startLine: nat, startColumn: nat, endLine: nat, endColumn: nat)

  /** One location of a result: `physicalLocation.artifactLocation.{uri, index}` and the region. */
  datatype Location = Location(uri: Option<string>, index: Option<nat>, region: Option<Region>)

  /** One finding; `ruleIndex` and the locations' `index` are derived by completion. */
  datatype Result = Result(
    level: string,
    message: string,
    ruleId: Option<string>,
    ruleIndex: Option<nat>,
    locations: seq<Location>)

  /** An entry of `tool.driver.rules`. */
  datatype Rule = Rule(
    id: string,
    shortDescription: Option<string>,
    fullDescription: Option<string>,
    helpUri: Option<string>)

  /** An entry of `run.artifacts`: `location.uri` and `sourceLanguage`. */
  datatype Artifact = Artifact(uri: Option<string>, sourceLanguage: Option<string>)

  /** One run: the tool driver's name, version and rules, the results and the optional artifact list. */
  datatype Run = Run(
    driverName: string,
    driverVersion: Option<string>,
    rules: seq<Rule>,
    results: seq<Result>,
    artifacts: Option<seq<Artifact>>)

  /** JavaScript truthiness of an optional string: present and not empty. */
  predicate Truthy(s: Option<string>)
  {
    s.Some? && s.value != ""
  }
}
