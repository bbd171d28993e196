/** The three store-updating loops of the ingestion script, stated as left folds over the
    rows they visit: the CTIS overlap merge, the get-or-create upsert and the PubMed
    enrichment. The store is two maps keyed by nct_id. */
module IngestPasses {
  import opened Text
  import opened Collections
  import opened Records
  import opened IngestMerge

  /** clinical_trials and clinical_trial_details, keyed by nct_id. */
  datatype Db = Db(trials: map<string, TrialRecord>, details: map<string, TrialDetails>)

  // ---------------------------------------------------------------------------
  // merge_ctis_overlaps
  // ---------------------------------------------------------------------------

  /** SQL `LIKE 'NCT%'`: the text starts with NCT in any ASCII case. */
  predicate LikeNct(s: string) {
    |s| >= 3 && Lower(s[..3]) == "nct"
  }

  /** The rows the candidate query returns: source "ctis" and a secondary id like NCT%. */
  predicate IsMergeCandidate(r: TrialRecord) {
    r.source == Some("ctis") && r.secondaryId.Some? && LikeNct(r.secondaryId.value)
  }

  /** The nct_id a CTIS row points at: its stripped secondary id. */
  function Target(r: TrialRecord): string {
    Trim(OrEmpty(r.secondaryId))
  }

  /** The row `k` names a different row that exists: the only case in which it is merged. */
  predicate Resolves(db: Db, k: string) {
    k in db.trials && Target(db.trials[k]) != "" && Target(db.trials[k]) in db.trials
    && Target(db.trials[k]) != k
  }

  /** The candidate list: every candidate row once, in any order. */
  ghost predicate MergeOrder(db: Db, order: seq<string>) {
    (forall k :: k in order <==> k in db.trials && IsMergeCandidate(db.trials[k]))
    && (forall i, j :: 0 <= i < j < |order| ==> order[i] != order[j])
  }

  /** How one row is folded into another: the rule for the trial record (given the EU row's
      id) and the rule for the details record. The pass below is stated for any rules;
      merge_ctis_overlaps uses CtisRules. */
  datatype MergeRules = MergeRules(
    row: (TrialRecord, TrialRecord, string) -> TrialRecord,
    details: (TrialDetails, TrialDetails) -> TrialDetails)

  const CtisRules := MergeRules(MergeTrial, MergeDetails)

  /** The row rule marks every merged row as correlated with CTIS. */
  ghost predicate MarksSource(rules: MergeRules) {
    forall us, eu, k :: rules.row(us, eu, k).source == Some(MergedSource)
  }

  lemma CtisRulesApply(us: TrialRecord, eu: TrialRecord, k: string, usDetails: TrialDetails, euDetails: TrialDetails)
    ensures CtisRules.row(us, eu, k) == MergeTrial(us, eu, k)
    ensures CtisRules.details(usDetails, euDetails) == MergeDetails(usDetails, euDetails)
  {
  }

  lemma CtisRulesMarkSource()
    ensures MarksSource(CtisRules)
  {
    forall us, eu, k ensures CtisRules.row(us, eu, k).source == Some(MergedSource) {
      MergeTrialMarks(us, eu, k);
    }
  }

  /** The store after a pass, the number of merged rows and the rows merged into. */
  datatype MergeOutcome = MergeOutcome(db: Db, count: nat, targets: set<string>)

  /** One iteration of the loop over the candidate row `k`. */
  function MergeStep(db: Db, k: string, rules: MergeRules): MergeOutcome {
    if !Resolves(db, k) then MergeOutcome(db, 0, {})
    else
      var t := Target(db.trials[k]);
      var us := rules.row(db.trials[t], db.trials[k], k);
      var usDetails := if t in db.details then db.details[t] else EmptyDetails;
      var merged := if k in db.details then rules.details(usDetails, db.details[k]) else usDetails;
      MergeOutcome(Db(db.trials[t := us] - {k}, db.details[t := merged] - {k}), 1, {t})
  }

  /** The loop over the candidates, in the order given. */
  function MergePass(db: Db, order: seq<string>, rules: MergeRules): MergeOutcome
    decreases |order|
  {
    if order == [] then MergeOutcome(db, 0, {})
    else
      var before := MergePass(db, order[..|order| - 1], rules);
      var step := MergeStep(before.db, order[|order| - 1], rules);
      MergeOutcome(step.db, before.count + step.count, before.targets + step.targets)
  }

  lemma MergePassUnfold(db: Db, order: seq<string>, rules: MergeRules, n: nat)
    requires n < |order|
    ensures var before := MergePass(db, order[..n], rules);
            var step := MergeStep(before.db, order[n], rules);
            MergePass(db, order[..n + 1], rules)
            == MergeOutcome(step.db, before.count + step.count, before.targets + step.targets)
  {
    assert order[..n + 1][..n] == order[..n];
  }

  /** The store after merging row `k`, given the merged rows the rules produce. */
  lemma MergeStepAt(db: Db, k: string, rules: MergeRules, us: TrialRecord, ud: TrialDetails)
    requires Resolves(db, k)
    requires var t := Target(db.trials[k]);
             us == rules.row(db.trials[t], db.trials[k], k)
             && ud == (var d := if t in db.details then db.details[t] else EmptyDetails;
                       if k in db.details then rules.details(d, db.details[k]) else d)
    ensures var t := Target(db.trials[k]);
            MergeStep(db, k, rules)
            == MergeOutcome(Db(db.trials[t := us] - {k}, db.details[t := ud] - {k}), 1, {t})
  {
  }

  /** A row that does not resolve to a different existing row leaves the store unchanged. */
  lemma MergeStepSkips(db: Db, k: string, rules: MergeRules)
    requires !Resolves(db, k)
    ensures MergeStep(db, k, rules) == MergeOutcome(db, 0, {})
  {
  }

  /** One merge deletes the CTIS trial and details rows, counts 1, and leaves the target
      with a details row. */
  lemma MergeStepKeys(db: Db, k: string, rules: MergeRules)
    requires Resolves(db, k)
    ensures var t := Target(db.trials[k]);
            var r := MergeStep(db, k, rules);
            r.count == 1 && r.targets == {t}
            && r.db.trials.Keys == db.trials.Keys - {k}
            && r.db.details.Keys == db.details.Keys + {t} - {k}
  {
  }

  /** One merge stores the merged record under the target id. */
  lemma MergeStepRow(db: Db, k: string, rules: MergeRules)
    requires Resolves(db, k)
    ensures var t := Target(db.trials[k]);
            MergeStep(db, k, rules).db.trials[t] == rules.row(db.trials[t], db.trials[k], k)
  {
  }

  /** One merge changes no row other than the CTIS row and its target. */
  lemma MergeStepFrame(db: Db, k: string, rules: MergeRules)
    requires Resolves(db, k)
    ensures var t := Target(db.trials[k]);
            var r := MergeStep(db, k, rules);
            (forall j :: j in db.trials && j != k && j != t ==> j in r.db.trials && r.db.trials[j] == db.trials[j])
            && (forall j :: j in db.details && j != k && j != t ==> j in r.db.details && r.db.details[j] == db.details[j])
  {
  }

  /** The pass only deletes rows, and only rows from the candidate list. */
  lemma {:induction false} MergePassKeys(db: Db, order: seq<string>, rules: MergeRules)
    ensures var r := MergePass(db, order, rules);
            r.db.trials.Keys <= db.trials.Keys
            && (forall k :: k in db.trials && k !in r.db.trials ==> k in order)
    decreases |order|
  {
    if order != [] {
      var n := |order| - 1;
      MergePassUnfold(db, order, rules, n);
      assert order[..n + 1] == order;
      MergePassKeys(db, order[..n], rules);
      var before := MergePass(db, order[..n], rules);
      if Resolves(before.db, order[n]) {
        MergeStepKeys(before.db, order[n], rules);
      } else {
        MergeStepSkips(before.db, order[n], rules);
      }
      var after := MergePass(db, order, rules).db;
      assert after.trials.Keys <= before.db.trials.Keys;
      forall k | k in db.trials && k !in after.trials ensures k in order {
        if k != order[n] {
          assert k !in before.db.trials;
          assert k in order[..n];
        }
      }
    }
  }

  /** The returned count is the number of trial rows the pass deletes. */
  lemma {:induction false} MergePassCount(db: Db, order: seq<string>, rules: MergeRules)
    ensures var r := MergePass(db, order, rules);
            |db.trials.Keys| == |r.db.trials.Keys| + r.count && r.count <= |order|
    decreases |order|
  {
    if order != [] {
      var n := |order| - 1;
      MergePassUnfold(db, order, rules, n);
      assert order[..n + 1] == order;
      MergePassCount(db, order[..n], rules);
      var before := MergePass(db, order[..n], rules);
      if Resolves(before.db, order[n]) {
        MergeStepKeys(before.db, order[n], rules);
        var after := MergeStep(before.db, order[n], rules).db;
        assert after.trials.Keys + {order[n]} == before.db.trials.Keys;
      } else {
        MergeStepSkips(before.db, order[n], rules);
      }
    }
  }

  /** Every row that was not merged into is either deleted or unchanged. */
  lemma {:induction false} MergePassFrame(db: Db, order: seq<string>, rules: MergeRules)
    ensures var r := MergePass(db, order, rules);
            forall j :: j in r.db.trials && j !in r.targets ==> j in db.trials && r.db.trials[j] == db.trials[j]
    decreases |order|
  {
    if order != [] {
      var n := |order| - 1;
      MergePassUnfold(db, order, rules, n);
      assert order[..n + 1] == order;
      MergePassFrame(db, order[..n], rules);
      var before := MergePass(db, order[..n], rules);
      if Resolves(before.db, order[n]) {
        MergeStepKeys(before.db, order[n], rules);
        MergeStepFrame(before.db, order[n], rules);
      } else {
        MergeStepSkips(before.db, order[n], rules);
      }
    }
  }

  /** Every candidate still present after `n` iterations is listed, and the ones already
      visited no longer resolve. */
  predicate Settled(d: Db, order: seq<string>, n: nat)
    requires n <= |order|
  {
    forall k :: k in d.trials && IsMergeCandidate(d.trials[k]) ==>
      k in order && (k in order[..n] ==> !Resolves(d, k))
  }

  /** One more iteration keeps the candidates settled. */
  lemma MergeStepSettles(d: Db, order: seq<string>, rules: MergeRules, m: nat)
    requires m < |order| && MarksSource(rules)
    requires Settled(d, order, m)
    ensures Settled(MergeStep(d, order[m], rules).db, order, m + 1)
  {
    var k0 := order[m];
    var d2 := MergeStep(d, k0, rules).db;
    if Resolves(d, k0) {
      var t := Target(d.trials[k0]);
      MergeStepKeys(d, k0, rules);
      MergeStepRow(d, k0, rules);
      MergeStepFrame(d, k0, rules);
      forall k | k in d2.trials && IsMergeCandidate(d2.trials[k])
        ensures k in order && (k in order[..m + 1] ==> !Resolves(d2, k))
      {
        assert k != t;
        assert d2.trials[k] == d.trials[k];
        if k in order[..m + 1] {
          assert k in order[..m];
        }
      }
    } else {
      MergeStepSkips(d, k0, rules);
      forall k | k in d2.trials && IsMergeCandidate(d2.trials[k])
        ensures k in order && (k in order[..m + 1] ==> !Resolves(d2, k))
      {
        if k in order[..m + 1] && k != k0 {
          assert k in order[..m];
        }
      }
    }
  }

  lemma {:induction false} MergePassSettles(db: Db, order: seq<string>, rules: MergeRules, n: nat)
    requires n <= |order| && MarksSource(rules)
    requires forall k :: k in db.trials && IsMergeCandidate(db.trials[k]) ==> k in order
    ensures Settled(MergePass(db, order[..n], rules).db, order, n)
    decreases n
  {
    if n == 0 {
      assert order[..0] == [];
    } else {
      MergePassSettles(db, order, rules, n - 1);
      MergePassUnfold(db, order, rules, n - 1);
      MergeStepSettles(MergePass(db, order[..n - 1], rules).db, order, rules, n - 1);
    }
  }

  /** No candidate row resolves to a different existing row. */
  predicate NothingToMerge(d: Db) {
    forall k :: k in d.trials && IsMergeCandidate(d.trials[k]) ==> !Resolves(d, k)
  }

  /** After the pass, no candidate row resolves to a different existing row. */
  lemma MergePassLeavesNoMatch(db: Db, order: seq<string>, rules: MergeRules)
    requires MergeOrder(db, order) && MarksSource(rules)
    ensures NothingToMerge(MergePass(db, order, rules).db)
  {
    MergePassSettles(db, order, rules, |order|);
    assert order[..|order|] == order;
  }

  /** A pass over candidates none of which resolves changes nothing and counts 0. */
  lemma {:induction false} MergePassNoOp(db: Db, order: seq<string>, rules: MergeRules)
    requires forall k :: k in order ==> !Resolves(db, k)
    ensures MergePass(db, order, rules) == MergeOutcome(db, 0, {})
    decreases |order|
  {
    if order != [] {
      var n := |order| - 1;
      MergePassUnfold(db, order, rules, n);
      assert order[..n + 1] == order;
      MergePassNoOp(db, order[..n], rules);
      MergeStepSkips(db, order[n], rules);
    }
  }

  /** On a store with nothing to merge, a pass over its candidates is a no-op. */
  lemma MergePassOnSettled(d: Db, order: seq<string>, rules: MergeRules)
    requires NothingToMerge(d) && MergeOrder(d, order)
    ensures MergePass(d, order, rules) == MergeOutcome(d, 0, {})
  {
    forall k | k in order ensures !Resolves(d, k) {
      assert k in d.trials && IsMergeCandidate(d.trials[k]);
    }
    MergePassNoOp(d, order, rules);
  }

  /** Running merge_ctis_overlaps a second time returns 0 and changes nothing. */
  lemma MergeTwice(db: Db, first: seq<string>, second: seq<string>, rules: MergeRules)
    requires MarksSource(rules)
    requires MergeOrder(db, first)
    requires MergeOrder(MergePass(db, first, rules).db, second)
    ensures var d := MergePass(db, first, rules).db;
            MergePass(d, second, rules) == MergeOutcome(d, 0, {})
  {
    MergePassLeavesNoMatch(db, first, rules);
    MergePassOnSettled(MergePass(db, first, rules).db, second, rules);
  }

  // ---------------------------------------------------------------------------
  // The upsert loop of run()
  // ---------------------------------------------------------------------------

  const CtgovStudyUrl := "https://clinicaltrials.gov/study/"
  const DefaultSource := "clinicaltrials.gov"

  /** `(s.get("source") or "").strip().lower()`, or clinicaltrials.gov when that is empty. */
  function StudySource(s: Study): string {
    var src := Lower(Trim(OrEmpty(s.source)));
    if src != "" then src else DefaultSource
  }

  /** `s.get("trial_link") or` the clinicaltrials.gov study URL for NCT ids, else "". */
  function StudyLink(s: Study): string {
    if OrEmpty(s.trialLink) != "" then s.trialLink.value
    else if StartsWith(s.nctId, "NCT") then CtgovStudyUrl + s.nctId
    else ""
  }

  /** The trial row written for a study; noise_flags is the one column the loop keeps. */
  function StudyTrial(noise: Cell, s: Study): TrialRecord {
    TrialRecord(
      source := Some(AsNa(Some(StudySource(s)))),
      secondaryId := Some(AsNa(s.secondaryId)),
      trialLink := Some(AsNa(Some(StudyLink(s)))),
      title := Some(AsNa(s.title)),
      studyType := Some(AsNa(s.studyType)),
      phase := Some(AsNa(s.phase)),
      status := Some(AsNa(s.status)),
      sponsor := Some(AsNa(s.sponsor)),
      admissionDate := Some(AsNa(s.admissionDate)),
      lastUpdateDate := Some(AsNa(s.lastUpdateDate)),
      hasResults := Some(AsNa(s.hasResults)),
      resultsLastUpdate := Some(AsNa(s.resultsLastUpdate)),
      pubmedLinks := Some(AsNa(s.pubmedLinks)),
      interventionTypes := Some(AsNa(s.interventionTypes)),
      studyDesign := Some(AsNa(s.studyDesign)),
      therapeuticClass := Some(AsNa(s.therapeuticClass)),
      focusTags := Some(AsNa(s.focusTags)),
      pdacMatchReason := Some(AsNa(s.pdacMatchReason)),
      noiseFlags := noise)
  }

  /** The details row written for a study. */
  function StudyDetails(s: Study): TrialDetails {
    TrialDetails(
      conditions := Some(AsNa(s.conditions)),
      interventions := Some(AsNa(s.interventions)),
      primaryOutcomes := Some(AsNa(s.primaryOutcomes)),
      secondaryOutcomes := Some(AsNa(s.secondaryOutcomes)),
      inclusionCriteria := Some(AsNa(s.inclusionCriteria)),
      exclusionCriteria := Some(AsNa(s.exclusionCriteria)),
      locations := Some(AsNa(s.locations)),
      briefSummary := Some(AsNa(s.briefSummary)),
      detailedDescription := Some(AsNa(s.detailedDescription)))
  }

  /** noise_flags of an existing row, None for a row the loop creates. */
  function NoiseOf(trials: map<string, TrialRecord>, id: string): Cell {
    if id in trials then trials[id].noiseFlags else None
  }

  /** How a study is written: the trial row (given the noise flags the row already has) and
      the details row. The loop below is stated for any rules; run() uses RunRules. */
  datatype WriteRules = WriteRules(row: (Cell, Study) -> TrialRecord, details: Study -> TrialDetails)

  const RunRules := WriteRules(StudyTrial, StudyDetails)

  /** The trial rule keeps the noise flags it is given. */
  ghost predicate KeepsNoise(rules: WriteRules) {
    forall noise, s :: rules.row(noise, s).noiseFlags == noise
  }

  lemma RunRulesApply(noise: Cell, s: Study)
    ensures RunRules.row(noise, s) == StudyTrial(noise, s)
    ensures RunRules.details(s) == StudyDetails(s)
  {
  }

  lemma RunRulesKeepNoise()
    ensures KeepsNoise(RunRules)
  {
  }

  datatype UpsertOutcome = UpsertOutcome(db: Db, inserted: nat, updated: nat)

  function UpsertStep(db: Db, s: Study, rules: WriteRules): UpsertOutcome {
    var isNew := s.nctId !in db.trials;
    var trials := db.trials[s.nctId := rules.row(NoiseOf(db.trials, s.nctId), s)];
    var details := db.details[s.nctId := rules.details(s)];
    UpsertOutcome(Db(trials, details), if isNew then 1 else 0, if isNew then 0 else 1)
  }

  /** The loop over the studies, in order. */
  function UpsertPass(db: Db, studies: seq<Study>, rules: WriteRules): UpsertOutcome
    decreases |studies|
  {
    if studies == [] then UpsertOutcome(db, 0, 0)
    else
      var before := UpsertPass(db, studies[..|studies| - 1], rules);
      var step := UpsertStep(before.db, studies[|studies| - 1], rules);
      UpsertOutcome(step.db, before.inserted + step.inserted, before.updated + step.updated)
  }

  /** The ids of a batch of studies. */
  function Ids(studies: seq<Study>): set<string> {
    set s | s in studies :: s.nctId
  }

  lemma IdsSnoc(studies: seq<Study>, s: Study)
    ensures Ids(studies + [s]) == Ids(studies) + {s.nctId}
  {
    var l := studies + [s];
    forall id | id in Ids(l) ensures id in Ids(studies) + {s.nctId} {
      var x :| x in l && x.nctId == id;
      if x != s {
        assert x in studies;
      }
    }
    forall id | id in Ids(studies) ensures id in Ids(l) {
      var x :| x in studies && x.nctId == id;
      assert x in l;
    }
    assert s in l;
  }

  lemma UpsertPassUnfold(db: Db, studies: seq<Study>, rules: WriteRules, n: nat)
    requires n < |studies|
    ensures var before := UpsertPass(db, studies[..n], rules);
            var step := UpsertStep(before.db, studies[n], rules);
            UpsertPass(db, studies[..n + 1], rules)
            == UpsertOutcome(step.db, before.inserted + step.inserted, before.updated + step.updated)
  {
    assert studies[..n + 1][..n] == studies[..n];
  }

  /** One study adds its id to both tables and counts as inserted exactly when the id was
      new. */
  lemma UpsertStepKeys(db: Db, s: Study, rules: WriteRules)
    ensures var r := UpsertStep(db, s, rules);
            r.db.trials.Keys == db.trials.Keys + {s.nctId}
            && r.db.details.Keys == db.details.Keys + {s.nctId}
            && r.inserted + r.updated == 1
            && (r.inserted == 1 <==> s.nctId !in db.trials)
  {
  }

  /** One study writes its two rows and touches no other id. */
  lemma UpsertStepEffect(db: Db, s: Study, rules: WriteRules)
    ensures var r := UpsertStep(db, s, rules);
            s.nctId in r.db.trials && s.nctId in r.db.details
            && r.db.trials[s.nctId] == rules.row(NoiseOf(db.trials, s.nctId), s)
            && r.db.details[s.nctId] == rules.details(s)
            && (forall id :: id in db.trials && id != s.nctId ==> id in r.db.trials && r.db.trials[id] == db.trials[id])
            && (forall id :: id in db.details && id != s.nctId ==> id in r.db.details && r.db.details[id] == db.details[id])
  {
  }

  /** After the loop every study id has a trial and a details row, and nothing else was added. */
  lemma {:induction false} UpsertKeys(db: Db, studies: seq<Study>, rules: WriteRules)
    ensures var r := UpsertPass(db, studies, rules);
            r.db.trials.Keys == db.trials.Keys + Ids(studies)
            && r.db.details.Keys == db.details.Keys + Ids(studies)
    decreases |studies|
  {
    if studies == [] {
      assert Ids(studies) == {};
    } else {
      var n := |studies| - 1;
      var init := studies[..n];
      var prev := UpsertPass(db, init, rules);
      UpsertPassUnfold(db, studies, rules, n);
      assert studies[..n + 1] == studies;
      assert UpsertPass(db, studies, rules).db == UpsertStep(prev.db, studies[n], rules).db;
      UpsertKeys(db, init, rules);
      IdsSnoc(init, studies[n]);
      assert init + [studies[n]] == studies;
      UpsertStepKeys(prev.db, studies[n], rules);
    }
  }

  /** Adding one id to a batch adds one new id exactly when the store and the batch lack it. */
  lemma NewIdsSnoc(ids: set<string>, keys: set<string>, x: string)
    ensures x in keys + ids ==> (ids + {x}) - keys == ids - keys
    ensures x !in keys + ids ==> |(ids + {x}) - keys| == |ids - keys| + 1
  {
    if x !in keys + ids {
      assert (ids + {x}) - keys == (ids - keys) + {x};
    }
  }

  /** Every study is counted once, as inserted or as updated, and the inserted ones are
      exactly the ids new to the store. */
  lemma {:induction false} UpsertCounts(db: Db, studies: seq<Study>, rules: WriteRules)
    ensures var r := UpsertPass(db, studies, rules);
            r.inserted + r.updated == |studies|
            && r.inserted == |Ids(studies) - db.trials.Keys|
    decreases |studies|
  {
    if studies == [] {
      assert Ids(studies) == {};
    } else {
      var n := |studies| - 1;
      var init := studies[..n];
      var s := studies[n];
      UpsertPassUnfold(db, studies, rules, n);
      assert studies[..n + 1] == studies;
      assert init + [s] == studies;
      UpsertCounts(db, init, rules);
      UpsertKeys(db, init, rules);
      IdsSnoc(init, s);
      var before := UpsertPass(db, init, rules);
      UpsertStepKeys(before.db, s, rules);
      NewIdsSnoc(Ids(init), db.trials.Keys, s.nctId);
    }
  }

  /** Rows whose id is in no study are untouched. */
  lemma {:induction false} UpsertFrame(db: Db, studies: seq<Study>, rules: WriteRules)
    ensures var r := UpsertPass(db, studies, rules);
            (forall id :: id in db.trials && id !in Ids(studies) ==> id in r.db.trials && r.db.trials[id] == db.trials[id])
            && (forall id :: id in db.details && id !in Ids(studies) ==> id in r.db.details && r.db.details[id] == db.details[id])
    decreases |studies|
  {
    if studies != [] {
      var n := |studies| - 1;
      var init := studies[..n];
      UpsertPassUnfold(db, studies, rules, n);
      assert studies[..n + 1] == studies;
      assert init + [studies[n]] == studies;
      UpsertFrame(db, init, rules);
      IdsSnoc(init, studies[n]);
      UpsertStepEffect(UpsertPass(db, init, rules).db, studies[n], rules);
    }
  }

  /** noise_flags is never rewritten: every row keeps the flags it had, or None when new. */
  lemma {:induction false} UpsertKeepsNoise(db: Db, studies: seq<Study>, rules: WriteRules)
    requires KeepsNoise(rules)
    ensures var r := UpsertPass(db, studies, rules);
            forall id :: id in r.db.trials ==> r.db.trials[id].noiseFlags == NoiseOf(db.trials, id)
    decreases |studies|
  {
    if studies != [] {
      var n := |studies| - 1;
      var init := studies[..n];
      UpsertPassUnfold(db, studies, rules, n);
      assert studies[..n + 1] == studies;
      UpsertKeepsNoise(db, init, rules);
      UpsertKeys(db, init, rules);
      var before := UpsertPass(db, init, rules);
      UpsertStepKeys(before.db, studies[n], rules);
      UpsertStepEffect(before.db, studies[n], rules);
      assert rules.row(NoiseOf(before.db.trials, studies[n].nctId), studies[n]).noiseFlags
             == NoiseOf(before.db.trials, studies[n].nctId);
    }
  }

  lemma UpsertNoiseOf(db: Db, studies: seq<Study>, rules: WriteRules, id: string)
    requires KeepsNoise(rules)
    ensures NoiseOf(UpsertPass(db, studies, rules).db.trials, id) == NoiseOf(db.trials, id)
  {
    UpsertKeepsNoise(db, studies, rules);
    UpsertKeys(db, studies, rules);
  }

  /** Each study id ends with the rows written for the last study carrying that id. */
  lemma {:induction false} UpsertLastWins(db: Db, studies: seq<Study>, rules: WriteRules, i: nat)
    requires KeepsNoise(rules)
    requires i < |studies|
    requires forall j :: i < j < |studies| ==> studies[j].nctId != studies[i].nctId
    ensures var r := UpsertPass(db, studies, rules);
            var id := studies[i].nctId;
            id in r.db.trials && id in r.db.details
            && r.db.trials[id] == rules.row(NoiseOf(db.trials, id), studies[i])
            && r.db.details[id] == rules.details(studies[i])
    decreases |studies|
  {
    var n := |studies| - 1;
    var init := studies[..n];
    UpsertPassUnfold(db, studies, rules, n);
    assert studies[..n + 1] == studies;
    var before := UpsertPass(db, init, rules);
    UpsertStepEffect(before.db, studies[n], rules);
    if i < n {
      assert init[i] == studies[i];
      assert studies[n].nctId != studies[i].nctId;
      UpsertLastWins(db, init, rules, i);
    } else {
      UpsertNoiseOf(db, init, rules, studies[i].nctId);
    }
  }

  /** The stored source is the lower-cased, stripped source, or clinicaltrials.gov. */
  lemma UpsertSource(s: Study)
    ensures var src := Lower(Trim(OrEmpty(s.source)));
            AsNa(Some(StudySource(s))) == if src != "" then src else DefaultSource
  {
    var src := Lower(Trim(OrEmpty(s.source)));
    if src != "" {
      var t := Trim(OrEmpty(s.source));
      assert src[0] == LowerChar(t[0]);
      NotBlankIfFirstNotSpace(src);
    } else {
      NotBlankIfFirstNotSpace(DefaultSource);
    }
  }

  /** trial_link falls back to the clinicaltrials.gov URL only for NCT ids, else to "NA". */
  lemma UpsertTrialLink(s: Study)
    requires OrEmpty(s.trialLink) == ""
    ensures AsNa(Some(StudyLink(s)))
            == if StartsWith(s.nctId, "NCT") then CtgovStudyUrl + s.nctId else "NA"
  {
    if StartsWith(s.nctId, "NCT") {
      var link := CtgovStudyUrl + s.nctId;
      assert link[0] == 'h';
      NotBlankIfFirstNotSpace(link);
    }
  }

  // ---------------------------------------------------------------------------
  // enrich_pubmed_links
  // ---------------------------------------------------------------------------

  /** pubmed_links IS NULL OR pubmed_links = '' OR pubmed_links = 'NA' */
  predicate LacksLinks(r: TrialRecord) {
    r.pubmedLinks.None? || r.pubmedLinks == Some("") || r.pubmedLinks == Some("NA")
  }

  /** The query result: NA-link rows in ascending nct_id order, at most `maxLookups` of them,
      and all of them when fewer exist. */
  ghost predicate EnrichOrder(trials: map<string, TrialRecord>, maxLookups: int, order: seq<string>) {
    (forall i, j :: 0 <= i < j < |order| ==> LexLt(order[i], order[j]))
    && (forall k :: k in order ==> k in trials && LacksLinks(trials[k]))
    && |order| <= maxLookups
    && (forall k :: k in trials && LacksLinks(trials[k]) && k !in order ==>
          |order| == maxLookups && forall j :: j in order ==> LexLt(j, k))
  }

  /** The id looked up: the row's own stripped id when it starts with NCT, else its stripped
      secondary id when that does, else none. */
  function LookupId(id: string, r: TrialRecord): (l: string)
    ensures StartsWith(Trim(id), "NCT") ==> l == Trim(id)
    ensures !StartsWith(Trim(id), "NCT") && StartsWith(Trim(OrEmpty(r.secondaryId)), "NCT") ==>
              l == Trim(OrEmpty(r.secondaryId))
    ensures l == "" || StartsWith(l, "NCT")
  {
    var own := Trim(id);
    var secondary := Trim(OrEmpty(r.secondaryId));
    if StartsWith(own, "NCT") then own
    else if StartsWith(secondary, "NCT") then secondary
    else ""
  }

  datatype EnrichOutcome = EnrichOutcome(trials: map<string, TrialRecord>, enriched: nat, updated: nat)

  /** The row after a lookup that found links. */
  function WithLinks(r: TrialRecord, links: string): TrialRecord {
    r.(pubmedLinks := Some(links),
       hasResults := if Folded(r.hasResults) != "yes" then Some("yes") else r.hasResults)
  }

  /** The links the lookup finds for a row; "" when there is nothing to look up. */
  function FoundLinks(id: string, r: TrialRecord, lookup: string -> string): string {
    var l := LookupId(id, r);
    if l == "" then "" else lookup(l)
  }

  function EnrichStep(trials: map<string, TrialRecord>, id: string, lookup: string -> string): EnrichOutcome {
    if id !in trials then EnrichOutcome(trials, 0, 0)
    else
      var links := FoundLinks(id, trials[id], lookup);
      if links == "" then EnrichOutcome(trials, 0, 0)
      else
        var fixes := if Folded(trials[id].hasResults) != "yes" then 1 else 0;
        EnrichOutcome(trials[id := WithLinks(trials[id], links)], 1, fixes)
  }

  /** The loop over the candidates, in order. */
  function EnrichPass(trials: map<string, TrialRecord>, order: seq<string>, lookup: string -> string): EnrichOutcome
    decreases |order|
  {
    if order == [] then EnrichOutcome(trials, 0, 0)
    else
      var before := EnrichPass(trials, order[..|order| - 1], lookup);
      var step := EnrichStep(before.trials, order[|order| - 1], lookup);
      EnrichOutcome(step.trials, before.enriched + step.enriched, before.updated + step.updated)
  }

  lemma EnrichPassUnfold(trials: map<string, TrialRecord>, order: seq<string>, lookup: string -> string, n: nat)
    requires n < |order|
    ensures var before := EnrichPass(trials, order[..n], lookup);
            var step := EnrichStep(before.trials, order[n], lookup);
            EnrichPass(trials, order[..n + 1], lookup)
            == EnrichOutcome(step.trials, before.enriched + step.enriched, before.updated + step.updated)
  {
    assert order[..n + 1][..n] == order[..n];
  }

  /** The candidate row `k` after its lookup, given the links found for it. */
  lemma EnrichStepAt(trials: map<string, TrialRecord>, k: string, lookup: string -> string, links: string)
    requires k in trials && links == FoundLinks(k, trials[k], lookup)
    ensures EnrichStep(trials, k, lookup)
            == if links == "" then EnrichOutcome(trials, 0, 0)
               else EnrichOutcome(trials[k := WithLinks(trials[k], links)], 1,
                                  if Folded(trials[k].hasResults) != "yes" then 1 else 0)
  {
  }

  /** A row with links found has has_results "yes" afterwards. */
  lemma WithLinksHasResults(r: TrialRecord, links: string)
    ensures Folded(WithLinks(r, links).hasResults) == "yes"
    ensures WithLinks(r, links).pubmedLinks == Some(links)
  {
    if Folded(r.hasResults) != "yes" {
      YesIsYes();
    }
  }

  /** One lookup changes at most row `k`, enriches at most once and fixes has_results at
      most when it enriches. */
  lemma EnrichStepEffect(trials: map<string, TrialRecord>, k: string, lookup: string -> string)
    ensures var s := EnrichStep(trials, k, lookup);
            s.updated <= s.enriched <= 1
            && s.trials.Keys == trials.Keys
            && (forall j :: j in trials && j != k ==> s.trials[j] == trials[j])
  {
  }

  /** Counters: has_results fixes never exceed enrichments, which never exceed lookups;
      no row appears or disappears, and rows outside the candidate list are untouched. */
  lemma {:induction false} EnrichCounts(trials: map<string, TrialRecord>, order: seq<string>, lookup: string -> string)
    ensures var r := EnrichPass(trials, order, lookup);
            r.updated <= r.enriched <= |order|
            && r.trials.Keys == trials.Keys
            && (forall k :: k in trials && k !in order ==> r.trials[k] == trials[k])
    decreases |order|
  {
    if order != [] {
      var n := |order| - 1;
      var init := order[..n];
      EnrichPassUnfold(trials, order, lookup, n);
      assert order[..n + 1] == order;
      EnrichCounts(trials, init, lookup);
      EnrichStepEffect(EnrichPass(trials, init, lookup).trials, order[n], lookup);
      assert order == init + [order[n]];
    }
  }

  /** Each candidate row visited (once, as the list is strictly ascending) ends with the links
      found for it and has_results "yes", or unchanged when nothing was found. */
  lemma {:induction false} EnrichRows(trials: map<string, TrialRecord>, order: seq<string>, lookup: string -> string)
    requires forall i, j :: 0 <= i < j < |order| ==> order[i] != order[j]
    ensures var r := EnrichPass(trials, order, lookup);
            forall k :: k in order && k in trials ==>
              var links := FoundLinks(k, trials[k], lookup);
              k in r.trials && r.trials[k] == if links == "" then trials[k] else WithLinks(trials[k], links)
    decreases |order|
  {
    if order != [] {
      var init := order[..|order| - 1];
      var last := order[|order| - 1];
      EnrichRows(trials, init, lookup);
      EnrichCounts(trials, init, lookup);
      assert last !in init by {
        forall i | 0 <= i < |init| ensures init[i] != last {
          assert init[i] == order[i];
        }
      }
      forall k | k in order && k in trials && k != last ensures k in init {
        var i :| 0 <= i < |order| && order[i] == k;
        assert init[i] == k;
      }
    }
  }

  /** A strictly ascending candidate list never repeats an id. */
  lemma AscendingIsDistinct(order: seq<string>)
    requires forall i, j :: 0 <= i < j < |order| ==> LexLt(order[i], order[j])
    ensures forall i, j :: 0 <= i < j < |order| ==> order[i] != order[j]
  {
  }
}
