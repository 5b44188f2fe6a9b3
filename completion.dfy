/**
 * The completion pass `SarifBuilder.completeRunFields` of
 * src/lib/sarif-builder.ts, as a function on runs, and what it guarantees.
 *
 * The pass appends one artifact per result-location URI not yet listed (in
 * first-seen order, with a source language inferred from the extension),
 * then writes the index of each result's rule and of each location's
 * artifact back into the results. Lookups go through maps built with "last
 * write wins", so an index is always the LAST matching position.
 */
module Completion {
  import opened Wrappers
  import opened SarifTypes

  /** The language recorded when the extension is not in the table. */
  const UnknownLanguage := "unknown"

  // ---------------------------------------------------------------------------
  // Scanning the results for URIs
  // ---------------------------------------------------------------------------

  /** The non-empty URIs of `locs`, in order, repetitions kept. */
  function LocationUris(locs: seq<Location>): seq<string>
  {
    if locs == [] then []
    else
      var n := |locs| - 1;
      LocationUris(locs[..n]) + (if Truthy(locs[n].uri) then [locs[n].uri.value] else [])
  }

  /** `LocationUris` lists exactly the non-empty URIs of the locations. */
  lemma {:induction false} LocationUrisMembers(locs: seq<Location>)
    ensures forall x :: x in LocationUris(locs) <==> exists j :: 0 <= j < |locs| && locs[j].uri == Some(x) && x != ""
  {
    if locs != [] {
      var n := |locs| - 1;
      LocationUrisMembers(locs[..n]);
      assert forall j :: 0 <= j < n ==> locs[..n][j] == locs[j];
    }
  }

  /** The non-empty URIs of all locations, results in order and each result's locations in order. */
  function ResultUris(results: seq<Result>): seq<string>
  {
    if results == [] then []
    else
      var n := |results| - 1;
      ResultUris(results[..n]) + LocationUris(results[n].locations)
  }

  /** `ResultUris` lists exactly the non-empty URIs of the results' locations. */
  lemma {:induction false} ResultUrisMembers(results: seq<Result>)
    ensures forall x :: x in ResultUris(results) <==>
      exists i, j :: 0 <= i < |results| && 0 <= j < |results[i].locations|
        && results[i].locations[j].uri == Some(x) && x != ""
  {
    if results != [] {
      var n := |results| - 1;
      ResultUrisMembers(results[..n]);
      LocationUrisMembers(results[n].locations);
      assert forall i :: 0 <= i < n ==> results[..n][i] == results[i];
    }
  }

  /** Every URI the scan collects is non-empty. */
  lemma ResultUrisNonEmpty(results: seq<Result>)
    ensures forall x :: x in ResultUris(results) ==> x != ""
  {
    ResultUrisMembers(results);
  }

  /**
   * The elements of `us` that are not in `seen`, each once, at its first
   * occurrence: the URIs the pass synthesizes artifacts for.
   */
  function FreshUris(us: seq<string>, seen: set<string>): (fs: seq<string>)
    ensures forall x :: x in fs <==> x in us && x !in seen
    ensures forall i, j :: 0 <= i < j < |fs| ==> fs[i] != fs[j]
  {
    if us == [] then []
    else
      var n := |us| - 1;
      assert us == us[..n] + [us[n]];
      var prefix := FreshUris(us[..n], seen);
      if us[n] in seen || us[n] in us[..n] then prefix else prefix + [us[n]]
  }

  /** The position of the first occurrence of `x` in `us`. */
  function FirstIndex(us: seq<string>, x: string): (k: nat)
    requires x in us
    ensures k < |us| && us[k] == x && x !in us[..k]
  {
    if us[0] == x then 0
    else
      var k := FirstIndex(us[1..], x);
      assert us[..k + 1] == [us[0]] + us[1..][..k];
      k + 1
  }

  /** Appending an element does not move the first occurrence of an element already present. */
  lemma {:induction false} FirstIndexSnoc(us: seq<string>, y: string, x: string)
    requires x in us
    ensures FirstIndex(us + [y], x) == FirstIndex(us, x)
  {
    if us[0] != x {
      assert (us + [y])[1..] == us[1..] + [y];
      FirstIndexSnoc(us[1..], y, x);
    }
  }

  /** An element occurring only at the end of `us` first occurs there. */
  lemma {:induction false} FirstIndexLast(us: seq<string>)
    requires us != [] && us[|us| - 1] !in us[..|us| - 1]
    ensures FirstIndex(us, us[|us| - 1]) == |us| - 1
  {
    var n := |us| - 1;
    if n > 0 {
      assert us[0] in us[..n];
      assert us[1..][..n - 1] == us[1..n];
      FirstIndexLast(us[1..]);
    }
  }

  /** The elements of `fs`, all taken from `us`, are ordered by their first occurrence in `us`. */
  predicate FirstSeenOrder(fs: seq<string>, us: seq<string>)
    requires forall x :: x in fs ==> x in us
  {
    forall i, j :: 0 <= i < j < |fs| ==> FirstIndex(us, fs[i]) < FirstIndex(us, fs[j])
  }

  /** The URIs `FreshUris` keeps appear in the order of their first occurrence. */
  lemma {:induction false} FreshUrisFirstSeen(us: seq<string>, seen: set<string>)
    ensures FirstSeenOrder(FreshUris(us, seen), us)
  {
    if us != [] {
      var n := |us| - 1;
      assert us == us[..n] + [us[n]];
      var prefix := FreshUris(us[..n], seen);
      FreshUrisFirstSeen(us[..n], seen);
      var fs := FreshUris(us, seen);
      assert fs == if us[n] in seen || us[n] in us[..n] then prefix else prefix + [us[n]];
      forall i, j | 0 <= i < j < |fs|
        ensures FirstIndex(us, fs[i]) < FirstIndex(us, fs[j])
      {
        assert fs[i] == prefix[i];
        FirstIndexSnoc(us[..n], us[n], prefix[i]);
        if j < |prefix| {
          assert fs[j] == prefix[j];
          FirstIndexSnoc(us[..n], us[n], prefix[j]);
          assert FirstSeenOrder(prefix, us[..n]);
        } else {
          assert fs[j] == us[n];
          assert prefix[i] in us[..n];
          assert FirstIndex(us[..n], prefix[i]) < n;
          FirstIndexLast(us);
          assert FirstIndex(us, fs[j]) == n;
          assert FirstIndex(us, fs[i]) == FirstIndex(us[..n], prefix[i]);
        }
      }
    }
  }

  /** `FreshUris` of an extended scan: the last URI is kept exactly when it has not been seen. */
  lemma FreshUrisSnoc(us: seq<string>, x: string, seen: set<string>)
    ensures FreshUris(us + [x], seen) ==
      if x in seen || x in us then FreshUris(us, seen) else FreshUris(us, seen) + [x]
  {
    assert (us + [x])[..|us|] == us;
  }

  /** A scan all of whose URIs have been seen synthesizes nothing. */
  lemma FreshUrisAllSeen(us: seq<string>, seen: set<string>)
    requires forall x :: x in us ==> x in seen
    ensures FreshUris(us, seen) == []
  {
  }

  // ---------------------------------------------------------------------------
  // Synthesized artifacts and their source language
  // ---------------------------------------------------------------------------

  /** The position of the last `.` of `s`, or `None` (JavaScript's `-1`) when there is none. */
  function LastDot(s: string): (k: Option<nat>)
    ensures k.None? <==> '.' !in s
    ensures k.Some? ==> k.value < |s| && s[k.value] == '.' && '.' !in s[k.value + 1..]
  {
    if s == [] then None
    else
      var n := |s| - 1;
      assert s == s[..n] + [s[n]];
      if s[n] == '.' then Some(n)
      else
        var k := LastDot(s[..n]);
        assert k.Some? ==> s[k.value + 1..] == s[..n][k.value + 1..] + [s[n]];
        k
  }

  /** The text after the last `.` of the URI, or `""` when the URI has no `.`. */
  function Extension(uri: string): (ext: string)
    ensures '.' !in ext
    ensures '.' !in uri ==> ext == ""
    ensures '.' in uri ==> |ext| < |uri| && uri[|uri| - |ext| - 1] == '.' && ext == uri[|uri| - |ext|..]
  {
    match LastDot(uri)
    case None => ""
    case Some(k) => uri[k + 1..]
  }

  /** A `.` with no `.` after it is the last one, and the extension is what follows it. */
  lemma {:induction false} LastDotAt(s: string, k: nat)
    requires k < |s| && s[k] == '.'
    requires forall j :: k < j < |s| ==> s[j] != '.'
    ensures LastDot(s) == Some(k)
    ensures Extension(s) == s[k + 1..]
  {
    var n := |s| - 1;
    if k < n {
      LastDotAt(s[..n], k);
    }
  }

  /**
   * `EXTENSIONS_LANGUAGES[ext] || 'unknown'`: the table's entry for the URI's
   * extension, unless it is missing or empty.
   */
  function SourceLanguage(uri: string, table: map<string, string>): (lang: string)
    ensures lang != ""
    ensures Extension(uri) in table && table[Extension(uri)] != "" ==> lang == table[Extension(uri)]
    ensures !(Extension(uri) in table && table[Extension(uri)] != "") ==> lang == UnknownLanguage
  {
    var ext := Extension(uri);
    if ext in table && table[ext] != "" then table[ext] else UnknownLanguage
  }

  /** The artifact the pass pushes for a URI no artifact lists yet. */
  function NewArtifact(uri: string, table: map<string, string>): Artifact
  {
    Artifact(Some(uri), Some(SourceLanguage(uri, table)))
  }

  /** One new artifact per URI, in the same order. */
  function Synthesized(us: seq<string>, table: map<string, string>): seq<Artifact>
  {
    seq(|us|, k requires 0 <= k < |us| => NewArtifact(us[k], table))
  }

  /** Extending the URI list by one extends the synthesized artifacts by one. */
  lemma SynthesizedSnoc(us: seq<string>, x: string, table: map<string, string>)
    ensures Synthesized(us + [x], table) == Synthesized(us, table) + [NewArtifact(x, table)]
  {
  }

  /** The non-empty URIs an artifact list names (`artifacts.map(a => a?.location?.uri).filter(Boolean)`). */
  function ExistingUris(artifacts: seq<Artifact>): (us: set<string>)
    ensures forall u :: u in us <==> u != "" && exists i :: 0 <= i < |artifacts| && artifacts[i].uri == Some(u)
  {
    set a | a in artifacts && Truthy(a.uri) :: a.uri.value
  }

  /** Of a seen URI followed by an unseen one, only the unseen one is fresh. */
  lemma FreshUrisSeenThenNew(a: string, b: string)
    requires a != b
    ensures FreshUris([a, b], {a}) == [b]
  {
    assert [a][..0] == [];
    assert FreshUris([a], {a}) == [];
    assert [a, b][..1] == [a];
  }

  /** A single artifact with a non-empty URI names exactly that URI. */
  lemma ExistingUrisSingle(a: Artifact)
    requires Truthy(a.uri)
    ensures ExistingUris([a]) == {a.uri.value}
  {
    assert a in [a];
  }

  /** The URIs named after appending synthesized artifacts for non-empty URIs. */
  lemma ExistingUrisAppend(existing: seq<Artifact>, fs: seq<string>, table: map<string, string>)
    requires forall x :: x in fs ==> x != ""
    ensures ExistingUris(existing + Synthesized(fs, table)) == ExistingUris(existing) + set x | x in fs
  {
    var all := existing + Synthesized(fs, table);
    forall x | x in set y | y in fs
      ensures x in ExistingUris(all)
    {
      var k :| 0 <= k < |fs| && fs[k] == x;
      assert all[|existing| + k] == NewArtifact(x, table);
    }
  }

  // ---------------------------------------------------------------------------
  // Index lookups (maps filled in list order, so the last match wins)
  // ---------------------------------------------------------------------------

  /** The largest position whose artifact has URI `u`, if any. */
  function LastUriIndex(artifacts: seq<Artifact>, u: string): (k: Option<nat>)
    ensures k.Some? ==> (k.value < |artifacts| && artifacts[k.value].uri == Some(u)
      && forall j :: k.value < j < |artifacts| ==> artifacts[j].uri != Some(u))
    ensures k.None? ==> forall j :: 0 <= j < |artifacts| ==> artifacts[j].uri != Some(u)
  {
    if artifacts == [] then None
    else
      var n := |artifacts| - 1;
      if artifacts[n].uri == Some(u) then Some(n)
      else
        assert forall j :: 0 <= j < n ==> artifacts[..n][j] == artifacts[j];
        LastUriIndex(artifacts[..n], u)
  }

  /** The largest position whose rule has id `id`, if any. */
  function LastRuleIndex(rules: seq<Rule>, id: string): (k: Option<nat>)
    ensures k.Some? ==> (k.value < |rules| && rules[k.value].id == id
      && forall j :: k.value < j < |rules| ==> rules[j].id != id)
    ensures k.None? ==> forall j :: 0 <= j < |rules| ==> rules[j].id != id
  {
    if rules == [] then None
    else
      var n := |rules| - 1;
      if rules[n].id == id then Some(n)
      else
        assert forall j :: 0 <= j < n ==> rules[..n][j] == rules[j];
        LastRuleIndex(rules[..n], id)
  }

  // ---------------------------------------------------------------------------
  // The pass
  // ---------------------------------------------------------------------------

  /** `run.artifacts || []`. */
  function Existing(run: Run): seq<Artifact>
  {
    run.artifacts.GetOr([])
  }

  /** The URIs the pass synthesizes artifacts for. */
  function NewUris(run: Run): seq<string>
  {
    FreshUris(ResultUris(run.results), ExistingUris(Existing(run)))
  }

  /** The artifact list after the pass. */
  function CompletedArtifacts(run: Run, table: map<string, string>): seq<Artifact>
  {
    Existing(run) + Synthesized(NewUris(run), table)
  }

  /** A location with its artifact index written, when its URI is non-empty and listed. */
  function CompleteLocation(loc: Location, artifacts: seq<Artifact>): (r: Location)
    ensures r.uri == loc.uri && r.region == loc.region
    ensures Truthy(loc.uri) && loc.uri.value in ExistingUris(artifacts) ==>
      r.index.Some? && r.index.value < |artifacts| && artifacts[r.index.value].uri == loc.uri
  {
    if Truthy(loc.uri) && LastUriIndex(artifacts, loc.uri.value).Some?
    then loc.(index := LastUriIndex(artifacts, loc.uri.value))
    else loc
  }

  /** A result with its rule index (when its rule id is found) and its locations' indices written. */
  function CompleteResult(result: Result, rules: seq<Rule>, artifacts: seq<Artifact>): (r: Result)
    ensures r.level == result.level && r.message == result.message && r.ruleId == result.ruleId
    ensures |r.locations| == |result.locations|
    ensures r.ruleIndex.Some? && r.ruleIndex != result.ruleIndex ==>
      result.ruleId.Some? && r.ruleIndex.value < |rules| && rules[r.ruleIndex.value].id == result.ruleId.value
  {
    var found := if result.ruleId.Some? then LastRuleIndex(rules, result.ruleId.value) else None;
    result.(
      ruleIndex := if found.Some? then found else result.ruleIndex,
      locations := seq(|result.locations|,
        j requires 0 <= j < |result.locations| => CompleteLocation(result.locations[j], artifacts)))
  }

  /** Every result, completed against the same rules and artifacts. */
  function CompleteResults(results: seq<Result>, rules: seq<Rule>, artifacts: seq<Artifact>): seq<Result>
  {
    seq(|results|, i requires 0 <= i < |results| => CompleteResult(results[i], rules, artifacts))
  }

  /** `completeRunFields(run)` with `EXTENSIONS_LANGUAGES` given as `table`. */
  function CompleteRun(run: Run, table: map<string, string>): (r: Run)
    ensures r.driverName == run.driverName && r.driverVersion == run.driverVersion && r.rules == run.rules
    ensures r.artifacts.Some? && Existing(run) <= r.artifacts.value
    ensures |r.results| == |run.results|
  {
    var artifacts := CompletedArtifacts(run, table);
    run.(artifacts := Some(artifacts), results := CompleteResults(run.results, run.rules, artifacts))
  }

  // ---------------------------------------------------------------------------
  // What the pass guarantees
  // ---------------------------------------------------------------------------

  /** Every non-empty URI a result location names is listed once the pass has appended its artifacts. */
  lemma AllUrisListed(run: Run, table: map<string, string>)
    ensures forall x :: x in ResultUris(run.results) ==>
      x in ExistingUris(CompletedArtifacts(run, table)) && LastUriIndex(CompletedArtifacts(run, table), x).Some?
  {
    var fs := NewUris(run);
    var arts := CompletedArtifacts(run, table);
    ResultUrisNonEmpty(run.results);
    ExistingUrisAppend(Existing(run), fs, table);
    forall x | x in ResultUris(run.results)
      ensures x in ExistingUris(arts) && LastUriIndex(arts, x).Some?
    {
      assert x in ExistingUris(arts);
      var a :| a in arts && Truthy(a.uri) && a.uri.value == x;
      var k :| 0 <= k < |arts| && arts[k] == a;
      assert arts[k].uri == Some(x);
    }
  }

  /**
   * The pass only appends to the artifact list (`[]` when it was absent); the
   * appended artifacts have non-empty, pairwise distinct URIs that no earlier
   * artifact lists, and the source language of their extension.
   */
  lemma CompleteRunArtifacts(run: Run, table: map<string, string>, done: Run)
    requires done == CompleteRun(run, table)
    ensures done.artifacts.Some?
    ensures |Existing(run)| <= |done.artifacts.value|
    ensures done.artifacts.value[..|Existing(run)|] == Existing(run)
    ensures forall k :: |Existing(run)| <= k < |done.artifacts.value| ==>
      && Truthy(done.artifacts.value[k].uri)
      && done.artifacts.value[k].uri.value !in ExistingUris(Existing(run))
      && done.artifacts.value[k].sourceLanguage == Some(SourceLanguage(done.artifacts.value[k].uri.value, table))
    ensures forall k, l :: |Existing(run)| <= k < l < |done.artifacts.value| ==>
      done.artifacts.value[k].uri != done.artifacts.value[l].uri
  {
    var before, fs := Existing(run), NewUris(run);
    var after := done.artifacts.value;
    ResultUrisNonEmpty(run.results);
    forall k | |before| <= k < |after|
      ensures after[k] == NewArtifact(fs[k - |before|], table) && fs[k - |before|] in ResultUris(run.results)
    {
      assert fs[k - |before|] in fs;
    }
  }

  /**
   * The appended artifacts are exactly the result-location URIs not listed
   * before, in the order in which the scan first meets them.
   */
  lemma CompleteRunFirstSeen(run: Run, table: map<string, string>, done: Run)
    requires done == CompleteRun(run, table)
    ensures done.artifacts.Some? && |Existing(run)| <= |done.artifacts.value|
    ensures forall k :: |Existing(run)| <= k < |done.artifacts.value| ==>
      done.artifacts.value[k].uri.Some? && done.artifacts.value[k].uri.value in ResultUris(run.results)
    ensures forall k, l :: |Existing(run)| <= k < l < |done.artifacts.value| ==>
      FirstIndex(ResultUris(run.results), done.artifacts.value[k].uri.value)
        < FirstIndex(ResultUris(run.results), done.artifacts.value[l].uri.value)
    ensures forall x :: x in ResultUris(run.results) && x !in ExistingUris(Existing(run)) ==>
      exists k :: |Existing(run)| <= k < |done.artifacts.value| && done.artifacts.value[k].uri == Some(x)
  {
    var before, fs, us := Existing(run), NewUris(run), ResultUris(run.results);
    var after := done.artifacts.value;
    FreshUrisFirstSeen(us, ExistingUris(before));
    assert FirstSeenOrder(fs, us);
    forall k | |before| <= k < |after|
      ensures after[k].uri == Some(fs[k - |before|]) && fs[k - |before|] in us
    {
      assert fs[k - |before|] in fs;
    }
    forall x | x in us && x !in ExistingUris(before)
      ensures exists k :: |before| <= k < |after| && after[k].uri == Some(x)
    {
      var m :| 0 <= m < |fs| && fs[m] == x;
      assert after[|before| + m].uri == Some(x);
    }
  }

  /**
   * After the pass, every location with a non-empty URI names a listed
   * artifact and carries the LAST position listing it; every other location
   * keeps the index it had.
   */
  lemma CompleteRunLocationIndex(run: Run, table: map<string, string>, done: Run)
    requires done == CompleteRun(run, table)
    ensures done.artifacts.Some? && |done.results| == |run.results|
    ensures forall i :: 0 <= i < |run.results| ==> |done.results[i].locations| == |run.results[i].locations|
    ensures forall i, j :: (0 <= i < |run.results| && 0 <= j < |run.results[i].locations|
      && Truthy(run.results[i].locations[j].uri)) ==>
        && run.results[i].locations[j].uri.value in ExistingUris(done.artifacts.value)
        && done.results[i].locations[j].index.Some?
        && done.results[i].locations[j].index.value < |done.artifacts.value|
        && done.artifacts.value[done.results[i].locations[j].index.value].uri == run.results[i].locations[j].uri
        && (forall k :: done.results[i].locations[j].index.value < k < |done.artifacts.value| ==>
              done.artifacts.value[k].uri != run.results[i].locations[j].uri)
    ensures forall i, j :: (0 <= i < |run.results| && 0 <= j < |run.results[i].locations|
      && !Truthy(run.results[i].locations[j].uri)) ==>
        done.results[i].locations[j].index == run.results[i].locations[j].index
  {
    AllUrisListed(run, table);
    ResultUrisMembers(run.results);
    forall i, j | 0 <= i < |run.results| && 0 <= j < |run.results[i].locations|
      && Truthy(run.results[i].locations[j].uri)
      ensures LastUriIndex(CompletedArtifacts(run, table), run.results[i].locations[j].uri.value).Some?
    {
      assert run.results[i].locations[j].uri.value in ResultUris(run.results);
    }
  }

  /**
   * A result whose rule id some rule has gets the LAST position with that id;
   * any other result keeps the rule index it had.
   */
  lemma CompleteRunRuleIndex(run: Run, table: map<string, string>, done: Run)
    requires done == CompleteRun(run, table)
    ensures |done.results| == |run.results|
    ensures forall i :: (0 <= i < |run.results| && run.results[i].ruleId.Some?
      && exists k :: 0 <= k < |run.rules| && run.rules[k].id == run.results[i].ruleId.value) ==>
        && done.results[i].ruleIndex.Some?
        && done.results[i].ruleIndex.value < |run.rules|
        && run.rules[done.results[i].ruleIndex.value].id == run.results[i].ruleId.value
        && (forall k :: done.results[i].ruleIndex.value < k < |run.rules| ==>
              run.rules[k].id != run.results[i].ruleId.value)
    ensures forall i :: (0 <= i < |run.results|
      && (run.results[i].ruleId.None? || forall k :: 0 <= k < |run.rules| ==> run.rules[k].id != run.results[i].ruleId.value)) ==>
        done.results[i].ruleIndex == run.results[i].ruleIndex
  {
  }

  /**
   * Nothing but the artifact list, the rule indices and the location indices
   * changes: the tool, the rules, the number and order of results and of
   * their locations, and every other field stay as they were.
   */
  lemma CompleteRunFrame(run: Run, table: map<string, string>, done: Run)
    requires done == CompleteRun(run, table)
    ensures done.driverName == run.driverName && done.driverVersion == run.driverVersion
    ensures done.rules == run.rules
    ensures |done.results| == |run.results|
    ensures forall i :: 0 <= i < |run.results| ==>
      && done.results[i] == run.results[i].(ruleIndex := done.results[i].ruleIndex, locations := done.results[i].locations)
      && |done.results[i].locations| == |run.results[i].locations|
      && (forall j :: 0 <= j < |run.results[i].locations| ==>
            done.results[i].locations[j] == run.results[i].locations[j].(index := done.results[i].locations[j].index))
  {
  }

  /** Two result lists that agree on everything the URI scan reads. */
  predicate SameUris(rs: seq<Result>, ts: seq<Result>)
  {
    && |rs| == |ts|
    && forall i :: 0 <= i < |rs| ==>
      && |rs[i].locations| == |ts[i].locations|
      && forall j :: 0 <= j < |rs[i].locations| ==> rs[i].locations[j].uri == ts[i].locations[j].uri
  }

  lemma {:induction false} LocationUrisSame(ls: seq<Location>, ms: seq<Location>)
    requires |ls| == |ms| && forall j :: 0 <= j < |ls| ==> ls[j].uri == ms[j].uri
    ensures LocationUris(ls) == LocationUris(ms)
  {
    if ls != [] {
      var n := |ls| - 1;
      LocationUrisSame(ls[..n], ms[..n]);
    }
  }

  lemma {:induction false} ResultUrisSame(rs: seq<Result>, ts: seq<Result>)
    requires SameUris(rs, ts)
    ensures ResultUris(rs) == ResultUris(ts)
  {
    if rs != [] {
      var n := |rs| - 1;
      assert SameUris(rs[..n], ts[..n]);
      ResultUrisSame(rs[..n], ts[..n]);
      LocationUrisSame(rs[n].locations, ts[n].locations);
    }
  }

  /** Running the pass on its own output changes nothing. */
  lemma CompleteRunIdempotent(run: Run, table: map<string, string>)
    ensures CompleteRun(CompleteRun(run, table), table) == CompleteRun(run, table)
  {
    var once := CompleteRun(run, table);
    var arts := CompletedArtifacts(run, table);
    assert SameUris(once.results, run.results);
    ResultUrisSame(once.results, run.results);
    AllUrisListed(run, table);
    FreshUrisAllSeen(ResultUris(once.results), ExistingUris(arts));
    assert Existing(once) == arts;
    assert CompletedArtifacts(once, table) == arts;
    var twice := CompleteRun(once, table);
    assert |twice.results| == |once.results|;
    forall i | 0 <= i < |once.results|
      ensures twice.results[i] == once.results[i]
    {
      var r, r' := run.results[i], once.results[i];
      assert r'.ruleId == r.ruleId;
      assert CompleteResult(r', run.rules, arts).locations == r'.locations;
    }
  }

  // ---------------------------------------------------------------------------
  // A worked case
  // ---------------------------------------------------------------------------

  /** A result of rule `ruleId` with one location at `uri`, as the result builder's simple initializer makes it. */
  function SimpleResult(level: string, message: string, ruleId: string, uri: string, startLine: nat): Result
  {
    Result(level, message, Some(ruleId), None, [Location(Some(uri), None, Some(Region(startLine, 1, startLine, 1)))])
  }

  /**
   * The run of the test (tool `MegaLinter` 5.5.0) that completes a run with two rules, results on
   * `src/one.ts` and `src/two.js`, and one artifact already listing `src/one.ts`.
   */
  function TwoFilesRun(): Run
  {
    Run("MegaLinter", Some("5.5.0"),
      [Rule("RuleA", Some("Rule A short"), None, None), Rule("RuleB", Some("Rule B short"), None, None)],
      [SimpleResult("warning", "Result A", "RuleA", "src/one.ts", 1),
       SimpleResult("error", "Result B", "RuleB", "src/two.js", 2)],
      Some([Artifact(Some("src/one.ts"), Some("TypeScript"))]))
  }

  /** A run whose scan finds one unlisted URI gets exactly one artifact appended. */
  lemma CompletedWithOneNew(run: Run, table: map<string, string>, u: string)
    requires NewUris(run) == [u]
    ensures CompletedArtifacts(run, table) == Existing(run) + [Artifact(Some(u), Some(SourceLanguage(u, table)))]
  {
    assert Synthesized([u], table) == [NewArtifact(u, table)];
  }

  /** Only `src/two.js` is new, and it gets the table's language for `js`. */
  lemma TwoFilesArtifacts(table: map<string, string>)
    requires "js" in table && table["js"] == "JavaScript"
    ensures CompletedArtifacts(TwoFilesRun(), table) ==
      [Artifact(Some("src/one.ts"), Some("TypeScript")), Artifact(Some("src/two.js"), Some("JavaScript"))]
  {
    var run := TwoFilesRun();
    var one, two := Artifact(Some("src/one.ts"), Some("TypeScript")), Artifact(Some("src/two.js"), Some("JavaScript"));
    assert Existing(run) == [one];
    assert CompletedArtifacts(run, table) == Existing(run) + [two] by {
      TwoFilesNewUris();
      TwoJsLanguage(table);
      CompletedWithOneNew(run, table, "src/two.js");
    }
  }

  /** The scan meets `src/one.ts`, then `src/two.js`. */
  lemma TwoFilesScan()
    ensures ResultUris(TwoFilesRun().results) == ["src/one.ts", "src/two.js"]
  {
    var rs := TwoFilesRun().results;
    assert rs[..1][..0] == [];
    assert ResultUris(rs[..1]) == ["src/one.ts"];
  }

  /** Of the scanned URIs, only `src/two.js` is not listed yet. */
  lemma TwoFilesNewUris()
    ensures NewUris(TwoFilesRun()) == ["src/two.js"]
  {
    var one, two := "src/one.ts", "src/two.js";
    var run := TwoFilesRun();
    assert ExistingUris(Existing(run)) == {one} by { ExistingUrisSingle(Artifact(Some(one), Some("TypeScript"))); }
    assert ResultUris(run.results) == [one, two] by { TwoFilesScan(); }
    assert FreshUris([one, two], {one}) == [two] by {
      assert one != two by { assert one[4] != two[4]; }
      FreshUrisSeenThenNew(one, two);
    }
  }

  /** `src/two.js` has extension `js`, so it gets the table's language for `js`. */
  lemma TwoJsLanguage(table: map<string, string>)
    requires "js" in table && table["js"] == "JavaScript"
    ensures SourceLanguage("src/two.js", table) == "JavaScript"
  {
    var two := "src/two.js";
    LastDotAt(two, 7);
    assert two[8..] == "js";
  }

  /** The lookups the worked case needs: each URI and rule id sits at its own position. */
  lemma TwoFilesLookups()
    ensures var arts := [Artifact(Some("src/one.ts"), Some("TypeScript")), Artifact(Some("src/two.js"), Some("JavaScript"))];
      LastUriIndex(arts, "src/one.ts") == Some(0) && LastUriIndex(arts, "src/two.js") == Some(1)
    ensures LastRuleIndex(TwoFilesRun().rules, "RuleA") == Some(0)
    ensures LastRuleIndex(TwoFilesRun().rules, "RuleB") == Some(1)
  {
    var one, two := "src/one.ts", "src/two.js";
    assert one != two by { assert one[4] != two[4]; }
    assert "RuleA" != "RuleB" by { assert "RuleA"[4] != "RuleB"[4]; }
    var arts := [Artifact(Some(one), Some("TypeScript")), Artifact(Some(two), Some("JavaScript"))];
    assert arts[..1] == [arts[0]];
    var rules := TwoFilesRun().rules;
    assert rules[..1] == [rules[0]];
  }

  /**
   * Completing that run appends a JavaScript artifact for `src/two.js` and
   * points each result at its own rule and artifact.
   */
  lemma TwoFilesExample(table: map<string, string>)
    requires "js" in table && table["js"] == "JavaScript"
    ensures var done := CompleteRun(TwoFilesRun(), table);
      && done.artifacts.Some? && |done.artifacts.value| == 2
      && done.artifacts.value[1] == Artifact(Some("src/two.js"), Some("JavaScript"))
      && |done.results| == 2 && done.results[0].ruleIndex == Some(0) && done.results[1].ruleIndex == Some(1)
      && |done.results[0].locations| == 1 && done.results[0].locations[0].index == Some(0)
      && |done.results[1].locations| == 1 && done.results[1].locations[0].index == Some(1)
  {
    var run := TwoFilesRun();
    var done := CompleteRun(run, table);
    TwoFilesArtifacts(table);
    TwoFilesLookups();
    var arts := CompletedArtifacts(run, table);
    assert done.results[0] == CompleteResult(run.results[0], run.rules, arts);
    assert done.results[1] == CompleteResult(run.results[1], run.rules, arts);
  }
}
