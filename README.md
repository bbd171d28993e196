# pdac-trial-atlas: the batch-ingestion core in Dafny

pdac-trial-atlas collects pancreatic ductal adenocarcinoma (PDAC) trials from three registries:

- ClinicalTrials.gov;
- the EU Clinical Trials Information System (CTIS);
- the EU Clinical Trials Register (EUCTR).

It filters and classifies each registry record with keyword rules and normalises it into one trial row. The rows are stored in a keyed store, and CTIS rows that duplicate a ClinicalTrials.gov trial are folded into that trial. A Streamlit dashboard then queries the rows with a small OR/AND query language.

This project models that deterministic core and proves what it promises:

- **Reconciliation and upsert** (`ingest_merge.dfy`, `ingest_passes.dfy`, `ingest_store.dfy`). The value rules `as_na`, `_merge_values` and `_parse_date_key`, and the record merge rules. The store is a class `TrialStore` holding two maps, id → trial row and id → details row. Its three loops are methods:
  - `merge_ctis_overlaps`;
  - the upsert loop of `run`;
  - `enrich_pubmed_links`.

  Each loop is proved equal to a left fold (`MergePass`, `UpsertPass`, `EnrichPass`). The fold's properties are lemmas: the frame, the counters, last write wins, and a second merge pass doing nothing.
- **ClinicalTrials.gov filtering and classification** (`clinicaltrials.dfy`). Covers `is_pdac_core`, `pdac_match_reason`, `classify_study` (keyword scoring, the tie-break list, focus tags, the fallback classes) and the payload extractors.
- **Registry normalisers.**
  - `ctis.dfy`: phase canonicalisation with a hand-written `\bphase\s*(i|ii|iii|iv)\b` matcher, study type, product type, results flag, `_nested`, the query terms, the focus tags, PubMed links and interventions.
  - `euctr.dfy`: the line-oriented summary parser over `EuctrSummaryRow` objects, status normalisation, the merge by EudraCT number and the building of study rows.
  - `collections.dfy`: the shared `_uniq`, which is identical in both registry files.
- **Dashboard query language** (`dashboard.dfy`). The list splitters, `_year_from_date`, the OR-of-AND group builder, the row mask, the `has_results` backfill and the pagination arithmetic.
- **Setting and line-of-therapy inference** (`normalize.dfy`). `normalize_trial`, `infer_setting` and `infer_line_of_therapy`.

Shared string helpers live in `text.dfy`, with ASCII case mapping and Python's `strip` whitespace set. Record shapes and the JSON value type live in `records.dfy`.

Each loop in the source is a method proved against a specification function. The properties are then proved about that function.

Where the code and its tests disagree, the model follows the code. tests/test_classification.py:122-124 expects `explicit_pdac` for "Ductal adenocarcinoma of the pancreas …". However, `pdac_match_reason` (ingest/clinicaltrials.py:198-210) yields `unknown_match` for that title. `ClinicalTrials.CoreTitleUnknownReason` shows this is the one way a core PDAC title gets `unknown_match`.

Two branches of the source can never be taken:

- `_map_ctis_study_type` (ingest/ctis.py:275-281) cannot return `UNKNOWN`, because the joined text always contains the joining space (`Ctis.StudyTypeOfParts`).
- The pancreatitis guard of `_is_pdac_candidate` (ingest/ctis.py:284-309) never changes the answer (`Ctis.CandidateIff`).

## Model

| member | source | states |
|---|---|---|
| Records.Decimal | scripts/ingest_clinicaltrials.py:53-57 | the decimal text of a number is all digits, has no leading zero and reads back as the number (`DigitsValue`) |
| Records.PyStr | ingest/clinicaltrials.py:62-65 | `str()` of a JSON value: a string is itself, None is "None", booleans are "True"/"False", an integer is a minus sign exactly when negative followed by digits that read back as its magnitude |
| Text.Trim | scripts/ingest_clinicaltrials.py:20-28 | `strip()` gives a text no longer than the input, with no whitespace at either end |
| Text.TrimSpec | scripts/ingest_clinicaltrials.py:20-28 | the stripped text is a slice of the input, and only whitespace lies outside it |
| Text.TrimEmptyIff | scripts/ingest_clinicaltrials.py:20-28 | stripping gives "" exactly when the text is all whitespace |
| Text.TrimIdempotent | scripts/ingest_clinicaltrials.py:20-28 | stripping twice is stripping once |
| Text.Lower | ingest/clinicaltrials.py:163-191 | ASCII `lower()`: same length, and each character is mapped by the ASCII lower-case map |
| Text.LowerIdempotent | ingest/clinicaltrials.py:163-191 | lowercasing twice is lowercasing once |
| Text.ContainsIff | ingest/clinicaltrials.py:163-191 | the substring test `in` holds exactly when the needle occurs at some index |
| Text.ContainsInConcat | frontend/dashboard.py:83-95 | a substring of one part is a substring of a concatenation |
| Text.ContainsTransitive | ingest/ctis.py:459-496 | a substring of a substring is a substring |
| Text.Split | scripts/ingest_clinicaltrials.py:35-38 | `str.split(sep)` yields at least one piece |
| Text.SplitJoin | scripts/ingest_clinicaltrials.py:35-38 | joining the pieces of `str.split(sep)` with `sep` gives back the text |
| Text.SplitPiecesFree | scripts/ingest_clinicaltrials.py:35-38 | no piece of `str.split(sep)` contains `sep` |
| Text.SplitNoSeparator | scripts/ingest_clinicaltrials.py:35-38 | text without the separator splits into itself alone |
| Text.JoinEmptyIff | ingest/clinicaltrials.py:84-85 | a join of non-empty items is empty exactly when there are no items |
| Text.JoinContainsItems | ingest/clinicaltrials.py:84-85 | every joined item occurs in the joined text |
| Text.LexLeTotal | scripts/ingest_clinicaltrials.py:114-122 | Python string comparison is total |
| Text.LexLeAntisymmetric | scripts/ingest_clinicaltrials.py:114-122 | string comparison is antisymmetric |
| Text.LexLeTransitive | scripts/ingest_clinicaltrials.py:114-122 | string comparison is transitive |
| Collections.DedupByIsFirstSeen | scripts/ingest_clinicaltrials.py:41-50 | dropping later items with an already-seen key gives the first-seen item of each key, in first-seen order |
| Collections.DedupByUnique | scripts/ingest_clinicaltrials.py:41-50 | after de-duplication no two items share a key |
| Collections.DedupByCovers | scripts/ingest_clinicaltrials.py:41-50 | every input key is still represented in the output |
| Collections.DedupByIdempotent | scripts/ingest_clinicaltrials.py:41-50 | de-duplicating twice is de-duplicating once |
| Collections.DedupByPrefix | scripts/ingest_clinicaltrials.py:41-50 | de-duplicating a prefix gives a prefix of the result |
| Collections.UniquedSpec | ingest/ctis.py:201-210 | `_uniq`: x is kept exactly when x is the stripped form of a non-blank input; the output has no duplicates and is stripped |
| Collections.UniquedIdempotent | ingest/euctr.py:61-70 | `_uniq` of a `_uniq` result changes nothing |
| Collections.Uniq | ingest/ctis.py:201-210 | the seen-set loop of `_uniq` computes the specification `Uniqued` |
| Collections.SortStrings | ingest/euctr.py:181-196 | `sorted()` of strings is a permutation of the input |
| Collections.SortStringsSorted | ingest/euctr.py:181-196 | `sorted()` output is in ascending string order and a permutation of the input |
| Collections.CollectMembers | ingest/ctis.py:342-360 | an append loop over a filter and a map collects exactly the mapped images of the accepted items |
| IngestMerge.AsNa | scripts/ingest_clinicaltrials.py:20-28 | `as_na` gives "NA" exactly for None, blank text or "NA"; any other value is passed through |
| IngestMerge.AsNaNotBlank | scripts/ingest_clinicaltrials.py:20-28 | `as_na` never yields a blank value |
| IngestMerge.AsNaKeepsNa | scripts/ingest_clinicaltrials.py:20-28 | the output of `as_na` is NA exactly when its input is |
| IngestMerge.SplitValues | scripts/ingest_clinicaltrials.py:35-38 | `_split_values` of an NA value is empty, and every item is stripped, non-blank and not "na" |
| IngestMerge.KeepItemsMembers | scripts/ingest_clinicaltrials.py:35-38 | an item is kept exactly when it is the stripped form of a piece that is neither blank nor "na" |
| IngestMerge.MergeValues | scripts/ingest_clinicaltrials.py:41-50 | the seen-set loop of `_merge_values` joins the merged items of both sides |
| IngestMerge.MergedItemsSpec | scripts/ingest_clinicaltrials.py:41-50 | the merged items are unique ignoring case; each comes from a or b; each is clean; every key of a and b is covered; a's items come first in their own order |
| IngestMerge.MergeAddsItem | scripts/ingest_clinicaltrials.py:41-50 | merging in one clean item gives the de-duplicated existing items, followed by the item exactly when no existing item has its lower-cased key; the item is always represented |
| Collections.DedupBySnoc | scripts/ingest_clinicaltrials.py:41-50 | one more item passed through the seen-set loop is kept, at the end, exactly when its key is new |
| IngestMerge.ParseDateKey | scripts/ingest_clinicaltrials.py:53-57 | `_parse_date_key` gives "" or a YYYY, YYYY-MM or YYYY-MM-DD digit string, which is the trimmed non-NA input |
| IngestMerge.ParseDateKeyOfKey | scripts/ingest_clinicaltrials.py:53-57 | a trimmed value of date shape is its own key, and only such values are |
| IngestMerge.LaterDate | scripts/ingest_clinicaltrials.py:114-122 | the merged date is the target's value or the CTIS date key |
| IngestMerge.LaterDateIsMaximum | scripts/ingest_clinicaltrials.py:114-122 | the merged date is not earlier than either valid key, and is empty only when neither side has one |
| IngestMerge.FillIfNa | scripts/ingest_clinicaltrials.py:91-100 | a label is overwritten only when the target is NA and the CTIS value is not |
| IngestMerge.ReplaceLabel | scripts/ingest_clinicaltrials.py:124-129 | a class or reason is replaced only when the target holds one of its placeholders |
| IngestMerge.MergeHasResults | scripts/ingest_clinicaltrials.py:112-113 | a CTIS "yes" sets has_results to "yes"; otherwise the target's value is kept |
| IngestMerge.MergeTrialMarks | scripts/ingest_clinicaltrials.py:87-89 | the merged row has source "clinicaltrials.gov+ctis", lists the CTIS id among its secondary ids, and keeps title, admission date and noise flags |
| IngestMerge.MergeTrialResults | scripts/ingest_clinicaltrials.py:112-113 | a CTIS "yes" makes the merged has_results "yes", and a target "yes" is never downgraded |
| IngestMerge.MergeTrialDates | scripts/ingest_clinicaltrials.py:114-122 | the merged row keeps the later of the two result dates and of the two update dates |
| IngestMerge.MergeTrialLabels | scripts/ingest_clinicaltrials.py:91-100 | the merged row's labels follow the fill-if-NA and placeholder-replacement rules |
| IngestPasses.CtisRulesApply | scripts/ingest_clinicaltrials.py:102-156 | the rule set used by the merge pass is exactly the trial and details merge |
| IngestPasses.CtisRulesMarkSource | scripts/ingest_clinicaltrials.py:87-88 | the merge rules mark the target so that it is no longer a merge candidate |
| IngestPasses.MergeStepSkips | scripts/ingest_clinicaltrials.py:76-84 | a row whose stripped secondary id is empty, names no stored trial, or names the row itself leaves the store unchanged and is not counted (the CTIS and NCT filter is the query, stated by `MergeOrder`) |
| IngestPasses.MergeStepRow | scripts/ingest_clinicaltrials.py:102-156 | a resolved step writes the merged row to the target |
| IngestPasses.MergePassKeys | scripts/ingest_clinicaltrials.py:158-164 | the pass only deletes rows, and only rows it visited |
| IngestPasses.MergePassCount | scripts/ingest_clinicaltrials.py:158-164 | the returned count equals the number of trial rows deleted |
| IngestPasses.MergePassFrame | scripts/ingest_clinicaltrials.py:68-84 | every surviving row that was not a merge target is unchanged |
| IngestPasses.MergePassLeavesNoMatch | scripts/ingest_clinicaltrials.py:68-84 | after a pass over all candidates, no row is left to merge |
| IngestPasses.MergePassNoOp | scripts/ingest_clinicaltrials.py:76-84 | a pass in which no visited row resolves changes nothing and returns 0 |
| IngestPasses.MergeTwice | scripts/ingest_clinicaltrials.py:60-164 | an immediate second merge pass returns 0 and changes nothing |
| IngestPasses.RunRulesApply | scripts/ingest_clinicaltrials.py:365-397 | the upsert writes the `as_na` record of the study and its details |
| IngestPasses.UpsertKeys | scripts/ingest_clinicaltrials.py:344-397 | after the loop, the ids are the old ids plus every study id, in both tables |
| IngestPasses.UpsertCounts | scripts/ingest_clinicaltrials.py:347-353 | inserted + updated equals the number of studies, and inserted counts the new ids |
| IngestPasses.UpsertFrame | scripts/ingest_clinicaltrials.py:344-397 | rows of ids that no study names are unchanged |
| IngestPasses.UpsertKeepsNoise | scripts/ingest_clinicaltrials.py:365-383 | the upsert never changes an existing row's noise flags |
| IngestPasses.UpsertLastWins | scripts/ingest_clinicaltrials.py:344-397 | each id ends with exactly the trial and details rows of the last study with that id |
| IngestPasses.UpsertSource | scripts/ingest_clinicaltrials.py:358-359 | the stored source is the lowercased, stripped source, else the default |
| IngestPasses.UpsertTrialLink | scripts/ingest_clinicaltrials.py:361-364 | a missing link becomes the clinicaltrials.gov study URL for NCT ids, else "NA" |
| IngestPasses.LookupId | scripts/ingest_clinicaltrials.py:276-284 | the lookup id is the trial's own NCT id, else an NCT secondary id, else "" |
| IngestPasses.WithLinksHasResults | scripts/ingest_clinicaltrials.py:286-293 | a PubMed hit stores the links and sets has_results to "yes" |
| IngestPasses.EnrichCounts | scripts/ingest_clinicaltrials.py:250-296 | updated_results <= enriched <= the number of candidates; no row is added or removed; rows not visited are unchanged |
| IngestPasses.EnrichRows | scripts/ingest_clinicaltrials.py:276-293 | each visited row ends with its links and has_results "yes" on a hit, and is unchanged otherwise |
| IngestPasses.AscendingIsDistinct | scripts/ingest_clinicaltrials.py:260-270 | candidates in ascending id order are distinct |
| IngestStore.MergeTrialRow | scripts/ingest_clinicaltrials.py:87-129 | the field-by-field merge loop computes the specification `MergeTrial` |
| IngestStore.MergeDetailsRow | scripts/ingest_clinicaltrials.py:131-156 | the details merge computes the specification `MergeDetails` |
| IngestStore.MergeOne | scripts/ingest_clinicaltrials.py:76-164 | one iteration of the merge loop computes one `MergeStep` |
| IngestStore.UpsertOne | scripts/ingest_clinicaltrials.py:354-397 | one iteration of the upsert loop computes one `UpsertStep` and says whether the id was new |
| IngestStore.EnrichOne | scripts/ingest_clinicaltrials.py:276-296 | one iteration of the enrichment loop computes one `EnrichStep` |
| IngestStore.TrialStore.MergeCtisOverlaps | scripts/ingest_clinicaltrials.py:60-164 | the store after the loop is the merge pass of the old store, and the count is the pass's count |
| IngestStore.TrialStore.Upsert | scripts/ingest_clinicaltrials.py:344-397 | the store after the loop is the upsert pass of the old store, with its insert and update counters |
| IngestStore.TrialStore.EnrichPubmedLinks | scripts/ingest_clinicaltrials.py:250-296 | with max_lookups <= 0 it returns (0, 0) and changes nothing; otherwise the trials are the enrichment pass of the old ones; details never change |
| ClinicalTrials.IsPdacCore | ingest/clinicaltrials.py:163-191 | a title is core exactly when it is non-empty, its lower-cased text contains no negative term and contains some PDAC term |
| ClinicalTrials.PdacCoreIgnoresCase | ingest/clinicaltrials.py:163-191 | the core test does not depend on letter case |
| ClinicalTrials.PdacMatchReason | ingest/clinicaltrials.py:198-210 | the reason is the first rule that fires, in source order: explicit PDAC, the acronym, pancreas/pancreatic adenocarcinoma, pancreatic cancer, otherwise unknown; each label holds exactly when its phrase occurs and no earlier one does |
| ClinicalTrials.MatchReasonHasPdacTerm | ingest/clinicaltrials.py:198-210 | any reason other than unknown_match implies a PDAC term in the title |
| ClinicalTrials.CoreTitleUnknownReason | ingest/clinicaltrials.py:198-210 | a core title gets unknown_match only when it says "ductal adenocarcinoma of the pancreas" |
| ClinicalTrials.StudyDesignKnown | ingest/clinicaltrials.py:227-232 | the design is known exactly for the three study-type constants, and different constants give different designs |
| ClinicalTrials.HitsPositiveIff | ingest/clinicaltrials.py:282-303 | a class scores above zero exactly when one of its keywords occurs |
| ClinicalTrials.PickIsTopScorer | ingest/clinicaltrials.py:282-303 | the picked class has the top score, and no class earlier in the priority list also has it |
| ClinicalTrials.PickByPriority | ingest/clinicaltrials.py:295-303 | the tie-break loop returns the first priority class among the candidates |
| ClinicalTrials.MatchTags | ingest/clinicaltrials.py:306-355 | the focus loop appends the matching tags in rule order |
| ClinicalTrials.MatchedMembers | ingest/clinicaltrials.py:306-355 | a tag is emitted exactly when one of its rule's keywords occurs |
| ClinicalTrials.ClassifyStudy | ingest/clinicaltrials.py:217-372 | `classify_study` computes the specification `Classify`, and its class is never unknown |
| ClinicalTrials.ClassifyNeverUnknown | ingest/clinicaltrials.py:357-370 | the therapeutic class is never "unknown" |
| ClinicalTrials.ClassifyTherapeuticClass | ingest/clinicaltrials.py:282-370 | with a keyword hit, the class is a top scorer first in the priority list; without one, it is the fallback (biomarker, observational, context) |
| ClinicalTrials.ClassifyFocus | ingest/clinicaltrials.py:306-355 | the focus tags follow rule order, are unique, and are exactly the tags whose rules match |
| ClinicalTrials.JoinNonEmpty | ingest/clinicaltrials.py:84-85 | the join is empty exactly when every value is blank |
| ClinicalTrials.JoinNonEmptyMentions | ingest/clinicaltrials.py:84-85 | every non-empty stripped value occurs in the join |
| ClinicalTrials.ExtractInterventions | ingest/clinicaltrials.py:88-100 | the interventions are the joined non-empty items, and the types are the de-duplicated kinds joined by ", " |
| ClinicalTrials.InterventionItemShape | ingest/clinicaltrials.py:88-100 | an item is stripped, is empty exactly when the name is blank, and contains the name |
| ClinicalTrials.InterventionsMentionNames | ingest/clinicaltrials.py:88-100 | every named intervention appears in the interventions column |
| ClinicalTrials.ExtractOutcomes | ingest/clinicaltrials.py:103-115 | the outcome loop joins the outcome texts |
| ClinicalTrials.OutcomesMentionChunks | ingest/clinicaltrials.py:103-115 | every measure, time frame and description part of an outcome appears in the result |
| ClinicalTrials.ExtractLocations | ingest/clinicaltrials.py:137-156 | the location loop joins the location entries |
| ClinicalTrials.LocationEntryShape | ingest/clinicaltrials.py:137-156 | an entry is stripped and contains its facility |
| ClinicalTrials.LocationsMentionFacilities | ingest/clinicaltrials.py:137-156 | every named facility appears in the locations column |
| ClinicalTrials.DateOf | ingest/clinicaltrials.py:33-42 | a value yields a date exactly when it is a non-empty string or a dict with a truthy "date" |
| ClinicalTrials.PickDate | ingest/clinicaltrials.py:28-43 | `_pick_date` gives the first key's date, and "" only when no key yields one |
| ClinicalTrials.PickDateOf | ingest/clinicaltrials.py:28-43 | the key loop computes `PickDate` |
| ClinicalTrials.HasResultsIn | ingest/clinicaltrials.py:52-64 | the flag comes from the first container holding hasResults, else "" |
| ClinicalTrials.ExtractResultFlags | ingest/clinicaltrials.py:46-81 | fails exactly when derivedSection is not a dict; otherwise returns the first container's flag and the picked results date |
| ClinicalTrials.StudyHasResults | ingest/clinicaltrials.py:474-476 | has_results is never empty: an explicit flag wins, otherwise "yes" exactly when a results date exists |
| Ctis.CleanStripped | ingest/ctis.py:116-119 | `_clean` output is stripped, and a string is cleaned to its stripped form |
| Ctis.JoinNonEmptyLoop | ingest/ctis.py:170-176 | the CTIS join loop computes the same join as the ClinicalTrials.gov one |
| Ctis.WalkNested | ingest/ctis.py:213-226 | the cursor loop of `_nested`, stopping at a None after any step, computes the specification `Nested` |
| Ctis.NestedIsLookup | ingest/ctis.py:213-226 | `_nested` returns the value at the path (the data itself for an empty path), or the default for a missing key, a bad index, a non-container or a None reached by a step |
| Ctis.NestedFromDefault | ingest/ctis.py:213-226 | walking from an inert default gives the default |
| Ctis.ResolvedTerms | ingest/ctis.py:179-189 | the terms are never empty, well-formed and distinct, and every non-blank explicit term is kept (the exact rule is the next two rows) |
| Ctis.ExplicitTermsMembers | ingest/ctis.py:183-184 | the cleaned, de-duplicated explicit terms are exactly the stripped non-blank ones |
| Ctis.ResolvedExplicit | ingest/ctis.py:183-186 | when some explicit term is non-blank, the terms are exactly the stripped non-blank explicit terms |
| Ctis.ResolvedFallback | ingest/ctis.py:187-189 | with no non-blank explicit term, the terms are the stripped condition alone when it is non-blank, and the default list otherwise |
| Ctis.ResolveExamples | tests/test_ctis.py:37-43 | no arguments give the default list; ["pancreatic", "pdac", "pancreatic"] gives ["pancreatic", "pdac"] |
| Ctis.DefaultTermsWellFormed | ingest/ctis.py:39-48 | the default query terms are stripped and non-empty |
| Ctis.ExtractAdditionalFocusTags | ingest/ctis.py:192-198 | the tag loop computes `AdditionalFocusTags` |
| Ctis.AdditionalFocusTagsSpec | ingest/ctis.py:192-198 | a tag is emitted exactly when one of its rule's keywords occurs, and each tag appears once |
| Ctis.SearchPhase | ingest/ctis.py:252-272 | the scan finds `phase <numeral>` at word boundaries exactly when `HasPhase` holds |
| Ctis.PhaseNumeralsExclusive | ingest/ctis.py:252-272 | at one position at most one roman numeral matches as a whole word, so "phase ii" does not also match "phase i" |
| Ctis.DetectedPhases | ingest/ctis.py:252-272 | PHASEn is detected exactly when the numeral n occurs after "phase" |
| Ctis.DetectTiers | ingest/ctis.py:252-272 | the detection loop computes `Detected` |
| Ctis.PhaseTiersKnown | ingest/ctis.py:252-272 | the tiers are PHASE1..PHASE4 only |
| Ctis.NormalizeCtisPhase | ingest/ctis.py:252-272 | `normalize_ctis_phase` computes `CtisPhase` |
| Ctis.CtisPhaseNotEmpty | ingest/ctis.py:252-272 | the phase is never empty, and detected tiers are joined by "/" |
| Ctis.StudyTypeOfParts | ingest/ctis.py:275-281 | the type is never UNKNOWN, and is OBSERVATIONAL exactly when either part mentions observational or non-interventional |
| Ctis.CandidateIff | ingest/ctis.py:284-309 | a candidate is a non-blank text that is PDAC-core, or mentions pancrea/pdac together with a cancer token |
| Ctis.CandidateNeedsPancreas | ingest/ctis.py:284-309 | a text that never mentions pancrea or pdac is never a candidate |
| Ctis.ExtractPubmedLinks | ingest/ctis.py:342-360 | the link loop joins the de-duplicated URLs and PubMed code links |
| Ctis.PubmedUrlsAreLinks | ingest/ctis.py:342-360 | every collected entry is a stripped http link |
| Ctis.PubmedCodeListed | ingest/ctis.py:342-360 | every numeric PubMed code shows up as its pubmed.ncbi.nlm.nih.gov link |
| Ctis.ProductTypeLabel | ingest/ctis.py:446-456 | BIOLOGICAL exactly when some substance origin mentions biological; otherwise DEVICE exactly when there are devices; otherwise DRUG exactly when a product name is present; otherwise OTHER |
| Ctis.ExtractCtisInterventions | ingest/ctis.py:459-496 | the product loop joins the de-duplicated intervention values and kinds |
| Ctis.AllValuesStripped | ingest/ctis.py:459-496 | every intervention value is non-empty and stripped |
| Ctis.ProductNameListed | ingest/ctis.py:459-496 | every named product shows up in the interventions column |
| Ctis.OverviewProductListed | ingest/ctis.py:489-493 | the overview's product always shows up in the interventions column |
| Ctis.TypesAreProductKinds | ingest/ctis.py:459-496 | the types column lists known kinds, each once |
| Ctis.NormalizeResultsFlag | ingest/ctis.py:639-649 | the results flag is always "yes" or "no"; which one, for every flag text, is the rule stated by `Ctis.ResultsFlagAnswer` |
| Ctis.ResultsFlagAnswer | ingest/ctis.py:639-649 | an explicit boolean decides; a cleaned flag reading yes/true is "yes" and no/false is "no"; any other flag gives "yes" exactly when summary or lay results are present |
| Euctr.QueryTermsSpec | ingest/euctr.py:242 | no terms give the defaults; otherwise exactly the stripped non-empty terms, each once |
| Euctr.ApplyFieldClean | ingest/euctr.py:123-145 | assigning a field keeps the row's lists clean |
| Euctr.EuctrSummaryRow.Assign | ingest/euctr.py:123-145 | assigning a key updates the row exactly as the key's rule says: append to lists, overwrite scalars, ignore unknown keys |
| Euctr.EuctrSummaryRow.Absorb | ingest/euctr.py:252-263 | absorbing a duplicate row unions the lists and fills an empty link |
| Euctr.SingleLine | ingest/euctr.py:101 | text without a line break is one line |
| Euctr.ColonSplit | ingest/euctr.py:120-122 | a line is its key, the first colon, then its value; the key holds no colon |
| Euctr.HeaderColon | ingest/euctr.py:106-112 | the header line's first colon is the header's own, so the value is the EudraCT number |
| Euctr.StepAppends | ingest/euctr.py:97-150 | the parser step only appends to the rows emitted so far |
| Euctr.FeedLine | ingest/euctr.py:106-148 | one line either updates the open row, or emits it and opens a fresh one, as `Step` says |
| Euctr.ParseLine | ingest/euctr.py:97-150 | the loop body keeps the object rows mirroring the specification rows, distinct |
| Euctr.ParseSummaryText | ingest/euctr.py:97-150 | the parser returns fresh, distinct row objects holding exactly `ParseSummary` of the lines |
| Euctr.ParsedNumbers | ingest/euctr.py:106-112 | the emitted rows' numbers are the non-empty numbers of the header lines, in input order |
| Euctr.ParsedRowsClean | ingest/euctr.py:147-148 | every emitted row has a non-empty number and clean lists |
| Euctr.StatusGroupShape | ingest/euctr.py:37 | the status group is the non-empty text inside a parenthesised group of the protocol |
| Euctr.NormalizeStatusOf | ingest/euctr.py:181-196 | the status loop computes `NormalizeStatus` |
| Euctr.DistinctStatuses | ingest/euctr.py:181-196 | the statuses are exactly the non-empty extracted groups, each once |
| Euctr.StatusListed | ingest/euctr.py:181-196 | every extracted status appears in the result |
| Euctr.StatusNa | ingest/euctr.py:181-196 | the result is never empty, and is "NA" exactly when nothing but NA was extracted |
| Euctr.StatusIgnoresOrder | ingest/euctr.py:181-196 | the result does not depend on the order of the protocols |
| Euctr.StatusExample | tests/test_euctr.py:29-32 | an ongoing and a completed protocol yield both statuses |
| Euctr.ClassificationTextMentions | ingest/euctr.py:199-206 | the text contains title, sponsor, conditions and diseases, and is empty only when all are |
| Euctr.MergedKeys | ingest/euctr.py:243-263 | the merged keys are the `_uniq` of the rows' numbers |
| Euctr.MergedKeyIff | ingest/euctr.py:243-263 | a number is merged exactly when some row carries it |
| Euctr.MergedFirst | ingest/euctr.py:252-263 | scalar fields come from the first row with that number |
| Euctr.MergedLists | ingest/euctr.py:252-263 | each list field is the clean union over every row with that number |
| Euctr.MergedLink | ingest/euctr.py:252-263 | the link is the first non-empty link among the rows with that number |
| Euctr.MergeRow | ingest/euctr.py:252-263 | one iteration keeps the merge invariant |
| Euctr.MergeByNumber | ingest/euctr.py:243-263 | the in-place merge yields the specification keys and rows |
| Euctr.BriefSummaryParts | ingest/euctr.py:276-283 | the brief summary lists age, gender and protocols, and is empty exactly when all three are |
| Euctr.StudyOfFields | ingest/euctr.py:285-316 | a built row has source euctr, type UNKNOWN, phase NA, has_results no, a sponsor defaulting to Unknown, a link, the normalised status, an unknown design and never an unknown class |
| Euctr.StudiesMembers | ingest/euctr.py:265-317 | built rows are exactly the candidates' rows, and there are no more of them than input rows |
| Euctr.BuildStudies | ingest/euctr.py:265-317 | the build loop computes `Studies` |
| Euctr.FetchTrialsEuctr | ingest/euctr.py:235-319 | the fetch computes `Studies` of the merged rows |
| Euctr.FetchedStudies | ingest/euctr.py:235-319 | fetched rows have distinct, non-empty EudraCT numbers taken from the input |
| Dashboard.SplitTagsSpec | frontend/dashboard.py:28-31 | tags are exactly the stripped, non-blank comma pieces |
| Dashboard.SplitCsvValuesSpec | frontend/dashboard.py:34-37 | values are exactly the stripped, non-blank comma pieces other than NA |
| Dashboard.SplitTagsOfJoin | frontend/dashboard.py:28-31 | splitting a comma join of clean tags gives them back |
| Dashboard.SplitCsvValuesOfJoin | frontend/dashboard.py:34-37 | splitting a comma join of clean values gives them back |
| Dashboard.SplitCsvValuesExample | tests/test_dashboard_query.py:43-44 | "DRUG, PROCEDURE, NA, " splits into DRUG and PROCEDURE |
| Dashboard.YearFromDateSpec | frontend/dashboard.py:40-46 | the year is "" or the four leading digits, and is non-empty exactly when the stripped text starts with four digits |
| Dashboard.YearOfDateKey | frontend/dashboard.py:40-46 | every date key from ingestion has a year |
| Dashboard.BackfillSpec | frontend/dashboard.py:235-242 | has_results is never blank; a NULL cell reads "None" (pandas `astype(str)`) and is kept; a non-blank value is kept; a blank one becomes "yes" exactly when a results date is NULL or non-blank; the backfill is idempotent |
| Dashboard.PageBounds | frontend/dashboard.py:646-650 | for any valid page, 0 <= start <= end <= rows, at most 25 rows per page, and full pages before the last |
| Dashboard.PagesTile | frontend/dashboard.py:646-650 | consecutive pages meet, the last ends at the last row, and every row lies on one page |
| Dashboard.CommaTokens | frontend/dashboard.py:61-65 | under the fallback split, a comma tokenises exactly like " OR " for any two sides, giving the left words, "OR", then the right words |
| Dashboard.CommaNormalized | frontend/dashboard.py:57-61 | with non-blank text on both sides, a comma and a spaced OR normalise to the same tokenizer input |
| Dashboard.OrSplits | frontend/dashboard.py:67-81 | an OR token splits the groups into those before and after it |
| Dashboard.AndGroups | frontend/dashboard.py:67-81 | without OR, the tokens form one group of their non-AND terms, or none |
| Dashboard.QueryMatchesIff | frontend/dashboard.py:49-95 | a row matches exactly when the query is blank, no group remains, or some group has all its terms in the row |
| Dashboard.OrBroadens | frontend/dashboard.py:67-95 | `a OR b` matches exactly what a matches or what b matches |
| Dashboard.AndRestricts | frontend/dashboard.py:67-95 | an OR-free query matches exactly when every term occurs |
| Dashboard.CommaIsOr | tests/test_dashboard_query.py:39-41 | for every shlex function, `a,b` matches exactly what `a OR b` matches when both sides are non-blank |
| Dashboard.CommaIsOrFallback | tests/test_dashboard_query.py:39-41 | when shlex fails, `a,b` matches exactly what `a OR b` matches for any two sides |
| Dashboard.BuildGroups | frontend/dashboard.py:67-81 | the token loop computes `Groups` |
| Dashboard.GroupsMask | frontend/dashboard.py:83-95 | the nested mask loops compute, per row, whether some group matches |
| Dashboard.QueryMask | frontend/dashboard.py:49-95 | the mask has one entry per row, true exactly when the row matches the query, with shlex applied to the normalised query |
| Dashboard.AndExample | tests/test_dashboard_query.py:27-29 | "kras AND metastatic" is one group of two terms |
| Dashboard.OrExample | tests/test_dashboard_query.py:31-33 | "radiotherapy OR biomarker" is two groups |
| Normalize.ParseDate | ingest/normalize.py:4-10 | a falsy input gives None, and a result comes from parsing the "date" string |
| Normalize.DateOf | ingest/normalize.py:42-50 | non-dict dates pass through unchanged, and dict dates are parsed |
| Normalize.SettingRule | ingest/normalize.py:58-69 | advanced if the tags contain advanced_disease, else resectable for resectable_disease, else unspecified; missing tags give unspecified |
| Normalize.LineOfTherapyRule | ingest/normalize.py:72-85 | first-line, then second-line, then refractory, else unspecified; a missing title gives unspecified |
| Normalize.LineOfTherapyMatchesFocus | ingest/normalize.py:72-85 | a line of therapy is inferred exactly when classification tags the title line_of_therapy |
| Normalize.FocusSettingSafe | ingest/normalize.py:58-69 | no focus label contains a setting tag it is not |
| Normalize.SettingMatchesFocus | ingest/normalize.py:58-69 | on joined focus tags, the setting is advanced or resectable exactly when that tag was assigned |
| Normalize.NormalizeTrialFields | ingest/normalize.py:13-55 | identifier, title, class, tags and reason are copied; non-dict dates pass through; setting and line come from their rules |
| Normalize.NormalizeTrialReadsOnly | ingest/normalize.py:13-55 | the result depends only on the keys `normalize_trial` reads |

## Left out

- HTTP clients, paging, retries and back-off are not modelled. Examples: `_request_json`, `_request_summary`, `iter_ctis_overviews`, `iter_euctr_summaries` and the request loop of `fetch_trials_pancreas`. Each payload they would return is an input of the model.
- The SQLite layer is not modelled:
  - the column migration and details backfill SQL (`ensure_columns`, `ensure_details_table_and_backfill`) is DDL text;
  - session commits are not modelled, and the store is two in-memory maps.
- The order of SQL query results is a parameter:
  - The merge pass visits CTIS rows in the order given. Its requires states which rows the query returns.
  - The enrichment pass gets the `max_lookups` NA-link rows in ascending id order, as `EnrichOrder` states.
- IngestStore.TrialStore.EnrichPubmedLinks: the PubMed request `_fetch_pubmed_links_by_nct` is not in the modelled files, so it is a lookup function passed as a parameter. Network failure is not modelled.
- `shlex.split` is a library call. It is a function parameter of `Dashboard.QueryMask`, applied to the normalised query; None stands for its ValueError, which falls back to splitting on spaces.
- Dashboard.CommaIsOr: when a side of the comma is blank (a leading or trailing comma), the two normalised texts differ by a space at one end. Equal matches are then proved only under the fallback split (`CommaIsOrFallback`), because shlex is a parameter whose handling of end spaces is not modelled.
- Calendar parsing (`datetime.strptime`, `fromisoformat`) is not modelled. `Normalize.ParseDate` takes the parser as a function parameter, and `normalize_ctis_date` is not modelled.
- The regex-heavy extractors with lazy or DOTALL matching are not modelled: `_extract_eligibility` in both registry files, and the PMID/DOI scan of `_extract_pubmed_links_from_references`.
- Other CTIS and ClinicalTrials.gov payload pickers are not modelled: `_pick_text_or_translation`, `_extract_secondary_nct`, `_extract_conditions`, `_extract_endpoints`, `_extract_locations` of ctis.py, `_extract_titles_and_summaries`, `_extract_sponsor`, both `_build_classification_text`/`build_classification_text` of the CTIS and ClinicalTrials.gov files, and the record assembly of `fetch_trials_ctis_pdac` and `fetch_trials_pancreas`. They read nested dictionaries into strings and promise nothing beyond that.
- Publication linkage and the evidence-signal functions are not defined in the modelled files, so they are not modelled.
- Text is ASCII:
  - `lower()`/`upper()` map only A-Z and a-z;
  - `strip()` removes ASCII whitespace only;
  - the regex classes `\w`, `\s` and `\d`, `str.isdigit()` and `str.split()` use their ASCII sets (`Ctis.IsWordChar`, `IngestMerge.DateShape`, `Dashboard.Words`, `Dashboard.YearFromDate`), whereas Python's also cover other Unicode letters, digits and spaces;
  - `splitlines()` is modelled with its full set of line boundaries (`Euctr.IsLineBreak`).
- Records.PyStr: lists and dicts get the fixed texts "[...]" and "{...}" rather than their repr, and JSON numbers are integers only (no floats).
- IngestStore.TrialStore.MergeCtisOverlaps: the model removes a merged CTIS row from the store at once. In the source, `session.delete` only marks the row, and `session.get` (scripts/ingest_clinicaltrials.py:80) still returns it from the session's identity map until the commit. The two differ in one case: a CTIS row B whose stripped secondary id names a CTIS row A that was merged and deleted earlier in the same pass. The source merges B into the doomed A and counts it; the model skips B. Inserts made by the upsert loop are visible to its later lookups in both, through the session's autoflush. `db/session.py` is not part of this model.
- Normalize.SettingRule and Normalize.LineOfTherapyRule require the tags and title to be text, None or falsy, because Python raises on any other truthy value.
- ClinicalTrials.ExtractResultFlags: a non-dict derivedSection makes Python raise. The model returns None instead.
- The dashboard UI is not modelled: the Streamlit widgets, charts, grid styling, `apply_filters`, `metrics_row`, the `render_*` functions and the pandas reshaping in `build_display_df`.
- The reporting scripts and the schema declaration (`db/models.py`) are not modelled. The schema supplies the record shapes only.
