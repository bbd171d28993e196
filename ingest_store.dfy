/** The ingestion store as the script mutates it: the clinical_trials and
    clinical_trial_details tables held as two maps keyed by nct_id, and the three loops that
    update them in place, each proved equal to its left-fold specification. */
module IngestStore {
  import opened Text
  import opened Records
  import opened IngestMerge
  import opened IngestPasses

  /** `as_na(_merge_values(us, eu, sep))`, the value a delimited column receives. */
  method MergedCell(us: Cell, eu: Cell, sep: string) returns (r: Cell)
    requires |sep| > 0
    ensures r == MergeCell(us, eu, sep)
  {
    var merged := MergeValues(us, eu, sep);
    r := Some(AsNa(Some(merged)));
  }

  /** The US trial row after folding the EU row into it, field by field. */
  method MergeTrialRow(us: TrialRecord, eu: TrialRecord, euId: string) returns (r: TrialRecord)
    ensures r == MergeTrial(us, eu, euId)
  {
    var secondary := MergedCell(us.secondaryId, Some(euId), ", ");
    var link := MergedCell(us.trialLink, eu.trialLink, " | ");
    var types := MergedCell(us.interventionTypes, eu.interventionTypes, ", ");
    var tags := MergedCell(us.focusTags, eu.focusTags, ",");
    var links := MergedCell(us.pubmedLinks, eu.pubmedLinks, " | ");
    var resultsDate := LaterDateOf(us.resultsLastUpdate, eu.resultsLastUpdate);
    var lastUpdate := LaterDateOf(us.lastUpdateDate, eu.lastUpdateDate);
    r := us.(
      source := Some(MergedSource),
      secondaryId := secondary,
      trialLink := link,
      sponsor := FillIfNa(us.sponsor, eu.sponsor),
      status := FillIfNa(us.status, eu.status),
      studyType := FillIfNa(us.studyType, eu.studyType),
      phase := FillIfNa(us.phase, eu.phase),
      studyDesign := FillIfNa(us.studyDesign, eu.studyDesign),
      interventionTypes := types,
      focusTags := tags,
      pubmedLinks := links,
      hasResults := MergeHasResults(us.hasResults, eu.hasResults),
      resultsLastUpdate := resultsDate,
      lastUpdateDate := lastUpdate,
      therapeuticClass := ReplaceLabel(us.therapeuticClass, eu.therapeuticClass, ClassPlaceholders),
      pdacMatchReason := ReplaceLabel(us.pdacMatchReason, eu.pdacMatchReason, ReasonPlaceholders));
  }

  /** The later-date-wins rule as the loop applies it to one date column. */
  method LaterDateOf(us: Cell, eu: Cell) returns (r: Cell)
    ensures r == LaterDate(us, eu)
  {
    r := us;
    var usKey := ParseDateKey(us);
    var euKey := ParseDateKey(eu);
    if euKey != "" && (usKey == "" || LexLt(usKey, euKey)) {
      r := Some(euKey);
    }
  }

  /** The US details row after folding the EU details row into it, field by field. */
  method MergeDetailsRow(us: TrialDetails, eu: TrialDetails) returns (r: TrialDetails)
    ensures r == MergeDetails(us, eu)
  {
    var conditions := MergedCell(us.conditions, eu.conditions, " | ");
    var interventions := MergedCell(us.interventions, eu.interventions, " | ");
    var primary := MergedCell(us.primaryOutcomes, eu.primaryOutcomes, " | ");
    var secondary := MergedCell(us.secondaryOutcomes, eu.secondaryOutcomes, " | ");
    var locations := MergedCell(us.locations, eu.locations, " | ");
    r := us.(
      conditions := conditions,
      interventions := interventions,
      primaryOutcomes := primary,
      secondaryOutcomes := secondary,
      locations := locations,
      inclusionCriteria := FillIfNa(us.inclusionCriteria, eu.inclusionCriteria),
      exclusionCriteria := FillIfNa(us.exclusionCriteria, eu.exclusionCriteria),
      briefSummary := FillIfNa(us.briefSummary, eu.briefSummary),
      detailedDescription := FillIfNa(us.detailedDescription, eu.detailedDescription));
  }

  /** One iteration of merge_ctis_overlaps, for the candidate row `k`: the EU row must name
      a different row that exists; that row absorbs the EU trial and details rows, which
      are deleted. */
  method MergeOne(db: Db, k: string) returns (r: Db, merged: nat)
    ensures var s := MergeStep(db, k, CtisRules);
            r == s.db && merged == s.count
  {
    r, merged := db, 0;
    if k !in db.trials {
      return;
    }
    var eu := db.trials[k];
    var nctId := Trim(OrEmpty(eu.secondaryId));
    if nctId == "" || nctId !in db.trials || nctId == k {
      return;
    }
    var us := MergeTrialRow(db.trials[nctId], eu, k);
    var usDetails := if nctId in db.details then db.details[nctId] else EmptyDetails;
    if k in db.details {
      CtisRulesApply(db.trials[nctId], eu, k, usDetails, db.details[k]);
      usDetails := MergeDetailsRow(usDetails, db.details[k]);
    } else {
      CtisRulesApply(db.trials[nctId], eu, k, usDetails, usDetails);
    }
    MergeStepAt(db, k, CtisRules, us, usDetails);
    r := Db(db.trials[nctId := us] - {k}, db.details[nctId := usDetails] - {k});
    merged := 1;
  }

  /** One iteration of enrich_pubmed_links, for the candidate row `k`. */
  method EnrichOne(trials: map<string, TrialRecord>, k: string, lookup: string -> string)
    returns (r: map<string, TrialRecord>, enriched: nat, fixed: nat)
    ensures var s := EnrichStep(trials, k, lookup);
            r == s.trials && enriched == s.enriched && fixed == s.updated
  {
    r, enriched, fixed := trials, 0, 0;
    if k !in trials {
      return;
    }
    var t := trials[k];
    var lookupId := "";
    var nctId := Trim(k);
    var secondaryId := Trim(OrEmpty(t.secondaryId));
    if StartsWith(nctId, "NCT") {
      lookupId := nctId;
    } else if StartsWith(secondaryId, "NCT") {
      lookupId := secondaryId;
    }
    assert lookupId == LookupId(k, t);
    var links := if lookupId == "" then "" else lookup(lookupId);
    EnrichStepAt(trials, k, lookup, links);
    if links == "" {
      return;
    }
    enriched := 1;
    if Folded(t.hasResults) != "yes" {
      fixed := 1;
    }
    r := trials[k := WithLinks(t, links)];
  }

  /** One iteration of the upsert loop: get or create both rows of the study and overwrite
      every column but noise_flags. */
  method UpsertOne(db: Db, s: Study) returns (r: Db, isNew: bool)
    ensures UpsertStep(db, s, RunRules)
            == UpsertOutcome(r, if isNew then 1 else 0, if isNew then 0 else 1)
  {
    isNew := s.nctId !in db.trials;
    var noise := NoiseOf(db.trials, s.nctId);
    RunRulesApply(noise, s);
    r := Db(db.trials[s.nctId := StudyTrial(noise, s)], db.details[s.nctId := StudyDetails(s)]);
  }

  class TrialStore {
    var trials: map<string, TrialRecord>
    var details: map<string, TrialDetails>

    constructor (trials0: map<string, TrialRecord>, details0: map<string, TrialDetails>)
      ensures trials == trials0 && details == details0
    {
      trials := trials0;
      details := details0;
    }

    function State(): Db
      reads this
    {
      Db(trials, details)
    }

    /** merge_ctis_overlaps over the candidate rows returned by its query, in that order. */
    method MergeCtisOverlaps(order: seq<string>) returns (count: nat)
      modifies this
      ensures var r := MergePass(old(State()), order, CtisRules);
              State() == r.db && count == r.count
    {
      ghost var db0 := State();
      count := 0;
      var i := 0;
      while i < |order|
        invariant 0 <= i <= |order|
        invariant var r := MergePass(db0, order[..i], CtisRules);
                  State() == r.db && count == r.count
      {
        MergePassUnfold(db0, order, CtisRules, i);
        var next, merged := MergeOne(State(), order[i]);
        trials, details := next.trials, next.details;
        count := count + merged;
        i := i + 1;
      }
      assert order[..i] == order;
    }

    /** The get-or-create upsert loop of run(): counts inserted and updated studies and
        writes both rows of every study. */
    method Upsert(studies: seq<Study>) returns (inserted: nat, updated: nat)
      modifies this
      ensures var r := UpsertPass(old(State()), studies, RunRules);
              State() == r.db && inserted == r.inserted && updated == r.updated
    {
      ghost var db0 := State();
      inserted, updated := 0, 0;
      var i := 0;
      while i < |studies|
        invariant 0 <= i <= |studies|
        invariant var r := UpsertPass(db0, studies[..i], RunRules);
                  State() == r.db && inserted == r.inserted && updated == r.updated
      {
        UpsertPassUnfold(db0, studies, RunRules, i);
        var next, isNew := UpsertOne(State(), studies[i]);
        trials, details := next.trials, next.details;
        inserted := inserted + if isNew then 1 else 0;
        updated := updated + if isNew then 0 else 1;
        i := i + 1;
      }
      assert studies[..i] == studies;
    }

    /** enrich_pubmed_links over the rows its query returns, with the PubMed search by NCT id
        given as `lookup` ("" when nothing is found). */
    method EnrichPubmedLinks(maxLookups: int, order: seq<string>, lookup: string -> string)
      returns (enriched: nat, updatedResults: nat)
      requires maxLookups > 0 ==> EnrichOrder(trials, maxLookups, order)
      modifies this
      ensures details == old(details)
      ensures maxLookups <= 0 ==> enriched == 0 && updatedResults == 0 && trials == old(trials)
      ensures maxLookups > 0 ==>
                var r := EnrichPass(old(trials), order, lookup);
                trials == r.trials && enriched == r.enriched && updatedResults == r.updated
    {
      if maxLookups <= 0 {
        return 0, 0;
      }
      ghost var trials0 := trials;
      enriched, updatedResults := 0, 0;
      var i := 0;
      while i < |order|
        invariant 0 <= i <= |order|
        invariant details == old(details)
        invariant var r := EnrichPass(trials0, order[..i], lookup);
                  trials == r.trials && enriched == r.enriched && updatedResults == r.updated
      {
        EnrichPassUnfold(trials0, order, lookup, i);
        var next, found, fixed := EnrichOne(trials, order[i], lookup);
        trials := next;
        enriched := enriched + found;
        updatedResults := updatedResults + fixed;
        i := i + 1;
      }
      assert order[..i] == order;
    }
  }
}
