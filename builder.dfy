/**
 * The log builder `SarifBuilder` of src/lib/sarif-builder.ts: the log object
 * with its default header, `addRun`, `buildSarifOutput` and the
 * invalid-marker check of `buildSarifJsonString`, together with the
 * step-by-step `completeRunFields` proved equal to `Completion.CompleteRun`.
 */
module Builder {
  import opened Wrappers
  import opened SarifTypes
  import opened Completion
  import opened Utils

  /**
   * `completeRunFields`: the loops of the source over a run's results,
   * artifacts and rules, with the `Set` and the two `Map`s as local state.
   * `table` stands for `EXTENSIONS_LANGUAGES`.
   */
  method CompleteRunFields(run: Run, table: map<string, string>) returns (completed: Run)
    ensures completed == CompleteRun(run, table)
  {
    // run.artifacts = run.artifacts || []
    var existing := if run.artifacts.Some? then run.artifacts.value else [];
    var artifacts := CollectMissingArtifacts(run.results, existing, table);
    var artifactIndexMap := BuildArtifactIndexMap(artifacts);
    var rulesIndexMap := BuildRulesIndexMap(run.rules);
    var results := UpdateResultIndexes(run.results, run.rules, artifacts, rulesIndexMap, artifactIndexMap);
    completed := run.(artifacts := Some(artifacts), results := results);
  }

  /** The URIs the `existingArtifactUris` set holds once the URIs `us` have been scanned. */
  ghost function SeenUris(existing: seq<Artifact>, us: seq<string>): set<string>
  {
    ExistingUris(existing) + set x | x in us
  }

  /** The artifact list once the URIs `us` have been scanned. */
  ghost function Pushed(existing: seq<Artifact>, us: seq<string>, table: map<string, string>): seq<Artifact>
  {
    existing + Synthesized(FreshUris(us, ExistingUris(existing)), table)
  }

  /** Scanning one more URI adds it to the set of seen URIs. */
  lemma SeenStep(existing: seq<Artifact>, us: seq<string>, x: string)
    ensures x in SeenUris(existing, us) <==> x in ExistingUris(existing) || x in us
    ensures SeenUris(existing, us + [x]) == SeenUris(existing, us) + {x}
  {
    assert (set y | y in us + [x]) == (set y | y in us) + {x};
  }

  /** Scanning one more URI pushes an artifact exactly when the URI has not been seen. */
  lemma PushedStep(existing: seq<Artifact>, us: seq<string>, x: string, table: map<string, string>)
    ensures Pushed(existing, us + [x], table) ==
      if x in ExistingUris(existing) || x in us then Pushed(existing, us, table)
      else Pushed(existing, us, table) + [NewArtifact(x, table)]
  {
    var seen := ExistingUris(existing);
    FreshUrisSnoc(us, x, seen);
    if !(x in seen || x in us) {
      SynthesizedSnoc(FreshUris(us, seen), x, table);
    }
  }

  /** The outer loop of the artifact collection, over the results in order. */
  method CollectMissingArtifacts(results: seq<Result>, existing: seq<Artifact>, table: map<string, string>)
    returns (artifacts: seq<Artifact>)
    ensures artifacts == existing + Synthesized(FreshUris(ResultUris(results), ExistingUris(existing)), table)
  {
    artifacts := existing;
    var existingArtifactUris := ExistingUris(existing);
    var i := 0;
    assert results[..0] == [];
    while i < |results|
      invariant 0 <= i <= |results|
      invariant existingArtifactUris == SeenUris(existing, ResultUris(results[..i]))
      invariant artifacts == Pushed(existing, ResultUris(results[..i]), table)
    {
      assert results[..i + 1][..i] == results[..i];
      artifacts, existingArtifactUris :=
        PushMissingArtifacts(results[i].locations, artifacts, existingArtifactUris, existing, ResultUris(results[..i]), table);
      i := i + 1;
    }
    assert results[..i] == results;
  }

  /**
   * The inner loop: pushes one artifact for each non-empty URI of
   * `locations` not yet in the `existingArtifactUris` set, and adds it there.
   */
  method PushMissingArtifacts(
    locations: seq<Location>, artifacts: seq<Artifact>, existingArtifactUris: set<string>,
    ghost existing: seq<Artifact>, ghost scanned: seq<string>, table: map<string, string>)
    returns (artifacts': seq<Artifact>, existingArtifactUris': set<string>)
    requires existingArtifactUris == SeenUris(existing, scanned)
    requires artifacts == Pushed(existing, scanned, table)
    ensures existingArtifactUris' == SeenUris(existing, scanned + LocationUris(locations))
    ensures artifacts' == Pushed(existing, scanned + LocationUris(locations), table)
  {
    artifacts', existingArtifactUris' := artifacts, existingArtifactUris;
    assert scanned + LocationUris(locations[..0]) == scanned;
    var j := 0;
    while j < |locations|
      invariant 0 <= j <= |locations|
      invariant existingArtifactUris' == SeenUris(existing, scanned + LocationUris(locations[..j]))
      invariant artifacts' == Pushed(existing, scanned + LocationUris(locations[..j]), table)
    {
      ghost var us := scanned + LocationUris(locations[..j]);
      assert locations[..j + 1][..j] == locations[..j];
      var uri := locations[j].uri;
      if uri.Some? && uri.value != "" {
        assert scanned + LocationUris(locations[..j + 1]) == us + [uri.value];
        SeenStep(existing, us, uri.value);
        PushedStep(existing, us, uri.value, table);
        if uri.value !in existingArtifactUris' {
          artifacts' := artifacts' + [NewArtifact(uri.value, table)];
          existingArtifactUris' := existingArtifactUris' + {uri.value};
        }
      } else {
        assert scanned + LocationUris(locations[..j + 1]) == us;
      }
      j := j + 1;
    }
    assert locations[..j] == locations;
  }

  /** The `forEach` that maps each non-empty artifact URI to its index, later entries overwriting earlier ones. */
  method BuildArtifactIndexMap(artifacts: seq<Artifact>) returns (artifactIndexMap: map<string, nat>)
    ensures forall u :: u in artifactIndexMap <==> u != "" && LastUriIndex(artifacts, u).Some?
    ensures forall u :: u in artifactIndexMap ==> LastUriIndex(artifacts, u) == Some(artifactIndexMap[u])
  {
    artifactIndexMap := map[];
    var k := 0;
    while k < |artifacts|
      invariant 0 <= k <= |artifacts|
      invariant forall u :: u in artifactIndexMap ==> u != "" && LastUriIndex(artifacts[..k], u) == Some(artifactIndexMap[u])
      invariant forall u :: u != "" && LastUriIndex(artifacts[..k], u).Some? ==> u in artifactIndexMap
    {
      assert artifacts[..k + 1][..k] == artifacts[..k];
      var uri := artifacts[k].uri;
      if uri.Some? && uri.value != "" {
        artifactIndexMap := artifactIndexMap[uri.value := k];
      }
      k := k + 1;
    }
    assert artifacts[..k] == artifacts;
  }

  /** The `forEach` that maps each rule id to its index, later entries overwriting earlier ones. */
  method BuildRulesIndexMap(rules: seq<Rule>) returns (rulesIndexMap: map<string, nat>)
    ensures forall id :: id in rulesIndexMap <==> LastRuleIndex(rules, id).Some?
    ensures forall id :: id in rulesIndexMap ==> LastRuleIndex(rules, id) == Some(rulesIndexMap[id])
  {
    rulesIndexMap := map[];
    var k := 0;
    while k < |rules|
      invariant 0 <= k <= |rules|
      invariant forall id :: id in rulesIndexMap ==> LastRuleIndex(rules[..k], id) == Some(rulesIndexMap[id])
      invariant forall id :: LastRuleIndex(rules[..k], id).Some? ==> id in rulesIndexMap
    {
      assert rules[..k + 1][..k] == rules[..k];
      rulesIndexMap := rulesIndexMap[rules[k].id := k];
      k := k + 1;
    }
    assert rules[..k] == rules;
  }

  /** The final loop: writes `ruleIndex` and every location's `index` from the two maps. */
  method UpdateResultIndexes(
    results: seq<Result>, rules: seq<Rule>, artifacts: seq<Artifact>,
    rulesIndexMap: map<string, nat>, artifactIndexMap: map<string, nat>)
    returns (updated: seq<Result>)
    requires forall id :: id in rulesIndexMap ==> LastRuleIndex(rules, id) == Some(rulesIndexMap[id])
    requires forall id :: LastRuleIndex(rules, id).Some? ==> id in rulesIndexMap
    requires forall u :: u in artifactIndexMap ==> LastUriIndex(artifacts, u) == Some(artifactIndexMap[u])
    requires forall u :: u != "" && LastUriIndex(artifacts, u).Some? ==> u in artifactIndexMap
    ensures updated == CompleteResults(results, rules, artifacts)
  {
    updated := results;
    var i := 0;
    while i < |updated|
      invariant 0 <= i <= |updated| == |results|
      invariant forall m :: 0 <= m < i ==> updated[m] == CompleteResult(results[m], rules, artifacts)
      invariant forall m :: i <= m < |updated| ==> updated[m] == results[m]
    {
      var result := updated[i];
      if result.ruleId.Some? && result.ruleId.value in rulesIndexMap {
        result := result.(ruleIndex := Some(rulesIndexMap[result.ruleId.value]));
      }
      var locations := UpdateLocationIndexes(result.locations, artifacts, artifactIndexMap);
      result := result.(locations := locations);
      updated := updated[i := result];
      i := i + 1;
    }
  }

  /** The inner loop over one result's locations. */
  method UpdateLocationIndexes(locations: seq<Location>, artifacts: seq<Artifact>, artifactIndexMap: map<string, nat>)
    returns (updated: seq<Location>)
    requires forall u :: u in artifactIndexMap ==> LastUriIndex(artifacts, u) == Some(artifactIndexMap[u])
    requires forall u :: u != "" && LastUriIndex(artifacts, u).Some? ==> u in artifactIndexMap
    ensures |updated| == |locations|
    ensures forall m :: 0 <= m < |locations| ==> updated[m] == CompleteLocation(locations[m], artifacts)
  {
    updated := locations;
    var j := 0;
    while j < |updated|
      invariant 0 <= j <= |updated| == |locations|
      invariant forall m :: 0 <= m < j ==> updated[m] == CompleteLocation(locations[m], artifacts)
      invariant forall m :: j <= m < |updated| ==> updated[m] == locations[m]
    {
      var uri := updated[j].uri;
      if uri.Some? && uri.value != "" {
        if uri.value in artifactIndexMap {
          updated := updated[j := updated[j].(index := Some(artifactIndexMap[uri.value]))];
        }
      }
      j := j + 1;
    }
  }

  // ---------------------------------------------------------------------------
  // The log
  // ---------------------------------------------------------------------------

  /** A value stored under a key of the log object: a header string or the list of runs. */
  datatype LogValue = Text(text: string) | RunList(runs: seq<Run>)

  const SchemaUri := "http://json.schemastore.org/sarif-2.1.0.json"
  const SarifVersion := "2.1.0"

  /** The log a builder starts from: `$schema`, `version` `2.1.0` and no runs. */
  function DefaultLog(): (entries: map<string, LogValue>)
    ensures WellFormedLog(entries) && entries["runs"].runs == []
  {
    map["$schema" := Text(SchemaUri), "version" := Text(SarifVersion), "runs" := RunList([])]
  }

  /** A log object whose `runs` key holds an array of runs. */
  predicate WellFormedLog(entries: map<string, LogValue>)
  {
    "runs" in entries && entries["runs"].RunList?
  }

  /** The typing of `LogOptions`: a defined `runs` option is an array of runs. */
  predicate WellTypedOptions(options: map<string, Option<LogValue>>)
  {
    "runs" in options && options["runs"].Some? ==> options["runs"].value.RunList?
  }

  /** Options that respect their typing give a well-formed log. */
  lemma MergeKeepsLogWellFormed(entries: map<string, LogValue>, options: map<string, Option<LogValue>>)
    requires WellFormedLog(entries) && WellTypedOptions(options)
    ensures WellFormedLog(Merge(entries, options))
  {
  }

  /** With empty options the constructor leaves the default log as it is. */
  lemma DefaultLogWithoutOptions()
    ensures Merge(DefaultLog(), map[]) == DefaultLog()
    ensures DefaultLog().Keys == {"$schema", "version", "runs"}
    ensures DefaultLog()["$schema"] == Text(SchemaUri)
    ensures DefaultLog()["version"] == Text("2.1.0") && DefaultLog()["runs"] == RunList([])
  {
    MergeEmpty(DefaultLog());
  }

  /** `this.log.runs.map((run) => this.completeRunFields(run))`. */
  function CompleteRuns(runs: seq<Run>, table: map<string, string>): (done: seq<Run>)
    ensures |done| == |runs|
    ensures forall i :: 0 <= i < |runs| ==> done[i] == CompleteRun(runs[i], table)
    ensures forall i :: 0 <= i < |runs| ==>
      done[i].driverName == runs[i].driverName && done[i].driverVersion == runs[i].driverVersion && done[i].rules == runs[i].rules
  {
    seq(|runs|, i requires 0 <= i < |runs| => CompleteRun(runs[i], table))
  }

  /** Building the output twice gives the runs that building it once gives. */
  lemma CompleteRunsIdempotent(runs: seq<Run>, table: map<string, string>)
    ensures CompleteRuns(CompleteRuns(runs, table), table) == CompleteRuns(runs, table)
  {
    forall i | 0 <= i < |runs|
      ensures CompleteRun(CompleteRun(runs[i], table), table) == CompleteRun(runs[i], table)
    {
      CompleteRunIdempotent(runs[i], table);
    }
  }

  // ---------------------------------------------------------------------------
  // The invalid-marker check of buildSarifJsonString
  // ---------------------------------------------------------------------------

  const InvalidMarker := "SARIF_BUILDER_INVALID"
  const InvalidLogMessage := "Your SARIF log is invalid, please solve SARIF_BUILDER_INVALID messages"

  /** `pat` occurs in `text` at position `i`. */
  predicate OccursAt(text: string, pat: string, i: nat)
  {
    i + |pat| <= |text| && text[i..i + |pat|] == pat
  }

  /** Occurrences in `text[1..]` are the occurrences in `text` one position further on. */
  lemma OccursAtShift(text: string, pat: string)
    requires text != []
    ensures forall i: nat :: OccursAt(text[1..], pat, i) <==> OccursAt(text, pat, i + 1)
  {
    forall i: nat
      ensures OccursAt(text[1..], pat, i) <==> OccursAt(text, pat, i + 1)
    {
      if i + 1 + |pat| <= |text| {
        assert text[1..][i..i + |pat|] == text[i + 1..i + 1 + |pat|];
      }
    }
  }

  /** `text.includes(pat)`. */
  function Includes(text: string, pat: string): (b: bool)
    ensures b <==> exists i: nat :: OccursAt(text, pat, i)
    decreases |text|
  {
    if |pat| > |text| then false
    else if text[..|pat|] == pat then assert OccursAt(text, pat, 0); true
    else
      OccursAtShift(text, pat);
      assert forall i: nat :: OccursAt(text, pat, i) ==> i > 0 && OccursAt(text[1..], pat, i - 1);
      Includes(text[1..], pat)
  }

  /** The serialized log, or the error `buildSarifJsonString` throws when the text carries the marker. */
  function CheckInvalidMarker(text: string): (r: Checked<string>)
    ensures r.Invalid? <==> exists i: nat :: OccursAt(text, InvalidMarker, i)
    ensures r.Ok? ==> r.value == text
    ensures r.Invalid? ==> r.message == InvalidLogMessage
  {
    if Includes(text, InvalidMarker) then Invalid(InvalidLogMessage) else Ok(text)
  }

  /** Whatever surrounds it, a marker in the serialized text makes serialization fail. */
  lemma MarkerAnywhereFails(before: string, after: string)
    ensures CheckInvalidMarker(before + InvalidMarker + after) == Invalid(InvalidLogMessage)
  {
    var text := before + InvalidMarker + after;
    assert text[|before|..|before| + |InvalidMarker|] == InvalidMarker;
    assert OccursAt(text, InvalidMarker, |before|);
  }

  // ---------------------------------------------------------------------------
  // The builder object
  // ---------------------------------------------------------------------------

  /** `SarifBuilder`: owns the log object and completes its runs on output. */
  class SarifBuilder {
    var log: Record<LogValue>

    ghost predicate Valid()
      reads this, log
    {
      WellFormedLog(log.entries)
    }

    /** `this.log.runs`. */
    function Runs(): seq<Run>
      reads this, log
      requires Valid()
    {
      log.entries["runs"].runs
    }

    /** Starts from the default log and overrides it with the defined option values. */
    constructor (options: map<string, Option<LogValue>>)
      requires WellTypedOptions(options)
      ensures Valid() && fresh(log)
      ensures log.entries == Merge(DefaultLog(), options)
    {
      log := new Record(DefaultLog());
      new;
      var _ := SetOptionValues(options, log);
      MergeKeepsLogWellFormed(DefaultLog(), options);
    }

    /** `addRun`: appends the run at the end of `log.runs`; nothing else changes. */
    method AddRun(run: Run)
      requires Valid()
      modifies log
      ensures Valid()
      ensures Runs() == old(Runs()) + [run]
      ensures log.entries == old(log.entries)["runs" := RunList(old(Runs()) + [run])]
    {
      log.entries := log.entries["runs" := RunList(Runs() + [run])];
    }

    /** `buildSarifOutput`: completes every run, keeping their number and order, and returns the log. */
    method BuildSarifOutput(table: map<string, string>) returns (output: Record<LogValue>)
      requires Valid()
      modifies log
      ensures Valid() && output == log
      ensures Runs() == CompleteRuns(old(Runs()), table)
      ensures log.entries == old(log.entries)["runs" := RunList(CompleteRuns(old(Runs()), table))]
    {
      var runs := Runs();
      var completed: seq<Run> := [];
      var i := 0;
      while i < |runs|
        invariant 0 <= i <= |runs| && |completed| == i
        invariant forall m :: 0 <= m < i ==> completed[m] == CompleteRun(runs[m], table)
        invariant unchanged(log)
      {
        var run := CompleteRunFields(runs[i], table);
        completed := completed + [run];
        i := i + 1;
      }
      assert completed == CompleteRuns(runs, table);
      log.entries := log.entries["runs" := RunList(completed)];
      output := log;
    }

    /**
     * `buildSarifJsonString`: completes the runs, serializes the log with
     * `stringify` (`JSON.stringify`, indented or not) and fails when the
     * text carries the invalid marker.
     */
    method BuildSarifJsonString(
      table: map<string, string>, indent: bool, stringify: (map<string, LogValue>, bool) -> string)
      returns (json: Checked<string>)
      requires Valid()
      modifies log
      ensures Valid()
      ensures log.entries == old(log.entries)["runs" := RunList(CompleteRuns(old(Runs()), table))]
      ensures json == CheckInvalidMarker(stringify(log.entries, indent))
    {
      var output := BuildSarifOutput(table);
      var sarifJson := stringify(log.entries, indent);
      json := CheckInvalidMarker(sarifJson);
    }
  }
}
