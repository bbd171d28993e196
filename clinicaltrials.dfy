/** The ClinicalTrials.gov side of the ingestion (ingest/clinicaltrials.py): the PDAC title
    filter, the match-reason label, the keyword classifier, and the helpers that flatten
    payload modules into text columns. A payload module is a decoded JSON object; list
    entries that a helper reads field by field are typed records. */
module ClinicalTrials {
  import opened Text
  import opened Records
  import opened Collections

  // ---------------------------------------------------------------------------
  // is_pdac_core and pdac_match_reason
  // ---------------------------------------------------------------------------

  const PdacTerms: seq<string> := [
    "pancreatic ductal adenocarcinoma",
    "ductal adenocarcinoma of the pancreas",
    "pancreas adenocarcinoma",
    "pancreatic adenocarcinoma",
    "pdac",
    "pancreatic cancer"]

  const NegativeTerms: seq<string> := [
    "unknown primary",
    "solid tumor",
    "solid tumours",
    "multiple cancers",
    "various cancers",
    "different cancers",
    "non-pancreatic"]

  /** is_pdac_core: a PDAC term occurs in the lower-cased title and no exclusion term
      does; an exclusion term wins over any PDAC term. */
  function IsPdacCore(title: string): (r: bool)
    ensures r <==> title != "" && !AnyIn(Lower(title), NegativeTerms) && AnyIn(Lower(title), PdacTerms)
    ensures title == "" ==> !r
  {
    if title == "" then false
    else
      var t := Lower(title);
      if AnyIn(t, NegativeTerms) then false else AnyIn(t, PdacTerms)
  }

  /** The filter ignores letter case. */
  lemma PdacCoreIgnoresCase(title: string)
    ensures IsPdacCore(Lower(title)) == IsPdacCore(title)
  {
    LowerIdempotent(title);
  }

  const ExplicitPdac := "explicit_pdac"
  const PdacAcronym := "pdac_acronym"
  const AdenocarcinomaPancreas := "adenocarcinoma_pancreas"
  const GenericPancreaticCancer := "generic_pancreatic_cancer"
  const UnknownMatch := "unknown_match"

  /** pdac_match_reason: the label of the first rule that fires, in a fixed order. */
  function PdacMatchReason(title: string): (r: string)
    ensures r in {ExplicitPdac, PdacAcronym, AdenocarcinomaPancreas, GenericPancreaticCancer, UnknownMatch}
    ensures var t := Lower(title);
            (r == ExplicitPdac <==> Contains(t, "pancreatic ductal adenocarcinoma")) &&
            (r == PdacAcronym <==> !Contains(t, "pancreatic ductal adenocarcinoma") && Contains(t, "pdac")) &&
            (r == AdenocarcinomaPancreas <==>
               !Contains(t, "pancreatic ductal adenocarcinoma") && !Contains(t, "pdac") &&
               (Contains(t, "pancreas adenocarcinoma") || Contains(t, "pancreatic adenocarcinoma"))) &&
            (r == GenericPancreaticCancer <==>
               !Contains(t, "pancreatic ductal adenocarcinoma") && !Contains(t, "pdac") &&
               !Contains(t, "pancreas adenocarcinoma") && !Contains(t, "pancreatic adenocarcinoma") &&
               Contains(t, "pancreatic cancer")) &&
            (r == UnknownMatch <==>
               !Contains(t, "pancreatic ductal adenocarcinoma") && !Contains(t, "pdac") &&
               !Contains(t, "pancreas adenocarcinoma") && !Contains(t, "pancreatic adenocarcinoma") &&
               !Contains(t, "pancreatic cancer"))
  {
    var t := Lower(title);
    if Contains(t, "pancreatic ductal adenocarcinoma") then ExplicitPdac
    else if Contains(t, "pdac") then PdacAcronym
    else if Contains(t, "pancreas adenocarcinoma") || Contains(t, "pancreatic adenocarcinoma")
    then AdenocarcinomaPancreas
    else if Contains(t, "pancreatic cancer") then GenericPancreaticCancer
    else UnknownMatch
  }

  /** Every named reason is backed by a PDAC term of the filter. */
  lemma MatchReasonHasPdacTerm(title: string)
    ensures PdacMatchReason(title) != UnknownMatch ==> AnyIn(Lower(title), PdacTerms)
  {
    var t := Lower(title);
    if Contains(t, PdacTerms[0]) {
    } else if Contains(t, PdacTerms[4]) {
    } else if Contains(t, PdacTerms[2]) {
    } else if Contains(t, PdacTerms[3]) {
    } else if Contains(t, PdacTerms[5]) {
    }
  }

  /** A title the filter keeps gets "unknown_match" only through the one PDAC term that
      has no reason of its own, "ductal adenocarcinoma of the pancreas". */
  lemma CoreTitleUnknownReason(title: string)
    requires IsPdacCore(title) && PdacMatchReason(title) == UnknownMatch
    ensures Contains(Lower(title), "ductal adenocarcinoma of the pancreas")
  {
    var t := Lower(title);
    var j :| 0 <= j < |PdacTerms| && Contains(t, PdacTerms[j]);
    assert j == 1;
  }

  // ---------------------------------------------------------------------------
  // classify_study
  // ---------------------------------------------------------------------------

  const Unknown := "unknown"

  datatype Classification = Classification(studyDesign: string, therapeuticClass: string, focus: seq<string>)

  /** The study_design label of a studyType constant. */
  function StudyDesign(studyType: string): string {
    if studyType == "INTERVENTIONAL" then "interventional"
    else if studyType == "OBSERVATIONAL" then "observational"
    else if studyType == "EXPANDED_ACCESS" then "expanded_access"
    else Unknown
  }

  /** Only the three known constants get a design, and each gets its own. */
  lemma StudyDesignKnown(a: string, b: string)
    ensures StudyDesign(a) != Unknown <==> a in {"INTERVENTIONAL", "OBSERVATIONAL", "EXPANDED_ACCESS"}
    ensures StudyDesign(a) == StudyDesign(b) != Unknown ==> a == b
  {
  }

  /** A keyword table in declaration order: a label and the terms that signal it. */
  type KeywordRules = seq<(string, seq<string>)>

  const ChemotherapyTerms: seq<string> := [
    "chemotherapy", "gemcitabine", "folfirinox", "irinotecan", "oxaliplatin",
    "cisplatin", "nab-paclitaxel", "paclitaxel", "5-fu", "fluorouracil",
    "asparaginase", "folfox", "floxuridine", "docetaxel", "bleomycin"]
  const ImmunotherapyTerms: seq<string> := [
    "immunotherapy", "pd-1", "pd-l1", "ctla-4", "vaccine",
    "car-t", "t cell", "nivolumab", "pembrolizumab", "atezolizumab",
    "antibody", "nk cell", "nk cells", "natural killer", "oncolytic",
    "viral therapy", "stem cell", "mesenchymal stem cell"]
  const TargetedTerms: seq<string> := [
    "kras", "egfr", "parp", "targeted", "inhibitor", "inhibition",
    "olaparib", "trametinib", "erlotinib", "selumetinib",
    "vorinostat", "binimetinib", "belzutifan", "braf", "ccx872",
    "warfarin", "metformin"]
  const RadiotherapyTerms: seq<string> := ["radiation", "radiotherapy", "sbrt", "imrt"]
  const SurgicalTerms: seq<string> := [
    "surgery", "resection", "pancreatectomy", "whipple",
    "mesenteric approach", "conventional approach"]
  const LocoregionalTerms: seq<string> := [
    "electroporation", "interstitial laser", "thermotherapy",
    "hepasphere", "percutaneous holmium", "digital subtraction angiography",
    "dsa", "hepatic artery infusional"]
  const RegistryTerms: seq<string> := [
    "registry", "database", "data management center", "survey", "case-vignette",
    "master protocol"]
  const TranslationalTerms: seq<string> := [
    "organoid", "exosome", "serum-bank", "bioprinting", "microbiota",
    "perineural invasion", "microparticles"]
  const SupportiveTerms: seq<string> := [
    "pain", "acupuncture", "acupressure", "nutrition", "diet",
    "exercise", "fatigue", "psychosocial", "quality of life",
    "palliative", "supportive care", "prehabilitation", "training",
    "walking", "depression", "cachexia", "anorexia", "appetite",
    "sarcopenia", "pregabalin", "escitalopram", "engagement app",
    "app-based", "with app", "anxiety", "prophylaxis", "vte", "dalteparin",
    "ketamine", "diabetes"]

  const TherapeuticSignals: KeywordRules := [
    ("chemotherapy", ChemotherapyTerms),
    ("immunotherapy", ImmunotherapyTerms),
    ("targeted_therapy", TargetedTerms),
    ("radiotherapy", RadiotherapyTerms),
    ("surgical", SurgicalTerms),
    ("locoregional_therapy", LocoregionalTerms),
    ("registry_program", RegistryTerms),
    ("translational_research", TranslationalTerms),
    ("supportive_care", SupportiveTerms)]

  const TieBreakPriority: seq<string> := [
    "locoregional_therapy",
    "surgical",
    "radiotherapy",
    "immunotherapy",
    "targeted_therapy",
    "chemotherapy",
    "supportive_care",
    "translational_research",
    "registry_program"]

  const FocusRules: KeywordRules := [
    ("biomarker", [
      "biomarker", "ctdna", "circulating tumor", "genomic", "mutation",
      "diagnosis", "diagnostic", "ca19-9", "methylation", "microrna",
      "micro-rna", "mirna", "liquid biopsy", "portal vein sampling"]),
    ("early_detection", [
      "screening", "early detection", "surveillance", "high-risk",
      "new onset diabetes", "risk model", "predictor"]),
    ("imaging_diagnostics", [
      "imaging", "pet", "mri", "ct ", "ct/", "ultrasound", "eus", "radiomic"]),
    ("liquid_biopsy", [
      "ctdna", "liquid biopsy", "circulating tumor", "blood biomarker",
      "portal vein sampling", "exosome"]),
    ("genomics_precision", [
      "genomic", "mutation", "germline", "brca", "kras", "braf", "parp",
      "precision", "machine learning", "artificial intelligence"]),
    ("hereditary_risk", [
      "family history", "hereditary", "germline", "high-risk individuals",
      "brca"]),
    ("supportive_outcomes", [
      "quality of life", "pain", "fatigue", "anxiety", "depression",
      "appetite", "cachexia", "survival", "recurrence", "prognosis"]),
    ("locoregional_procedure", [
      "electroporation", "thermotherapy", "ablation",
      "hepatic artery infusional", "seed implantation", "angiography"]),
    ("microbiome_metabolic", ["microbiota", "metabolite", "diabetes", "steatosis"]),
    ("registry_real_world", ["registry", "database", "survey", "case-vignette", "real-world"]),
    ("advanced_disease", ["metastatic", "advanced", "unresectable"]),
    ("resectable_disease", ["resectable", "neoadjuvant", "adjuvant"]),
    ("line_of_therapy", ["first-line", "second-line", "refractory"])]

  /** sum(1 for term in terms if term in t): how many terms occur in `t`. */
  function Hits(t: string, terms: seq<string>): (n: nat)
    ensures n <= |terms|
    decreases |terms|
  {
    if terms == [] then 0
    else Hits(t, terms[..|terms| - 1]) + (if Contains(t, terms[|terms| - 1]) then 1 else 0)
  }

  /** A class scores at all exactly when one of its terms occurs (the any() test). */
  lemma {:induction false} HitsPositiveIff(t: string, terms: seq<string>)
    ensures Hits(t, terms) > 0 <==> AnyIn(t, terms)
    decreases |terms|
  {
    if terms != [] {
      var init := terms[..|terms| - 1];
      HitsPositiveIff(t, init);
      if AnyIn(t, terms) && !Contains(t, terms[|terms| - 1]) {
        var j :| 0 <= j < |terms| && Contains(t, terms[j]);
        assert Contains(t, init[j]);
      }
      if AnyIn(t, init) {
        var j :| 0 <= j < |init| && Contains(t, init[j]);
        assert Contains(t, terms[j]);
      }
    }
  }

  /** class_scores, in the declaration order of the table. */
  function Scores(t: string, rules: KeywordRules): (s: seq<nat>)
    ensures |s| == |rules|
    ensures forall i :: 0 <= i < |rules| ==> s[i] == Hits(t, rules[i].1)
  {
    seq(|rules|, i requires 0 <= i < |rules| => Hits(t, rules[i].1))
  }

  /** max(): the largest score, 0 for no scores. */
  function MaxOf(xs: seq<nat>): (m: nat)
    ensures forall i :: 0 <= i < |xs| ==> xs[i] <= m
    ensures xs != [] ==> exists i :: 0 <= i < |xs| && xs[i] == m
    decreases |xs|
  {
    if xs == [] then 0
    else
      var m := MaxOf(xs[..|xs| - 1]);
      assert forall i :: 0 <= i < |xs| - 1 ==> xs[..|xs| - 1][i] == xs[i];
      if xs[|xs| - 1] > m then xs[|xs| - 1] else m
  }

  /** The labels whose score equals the best score. */
  function Candidates(t: string, rules: KeywordRules): set<string> {
    var best := MaxOf(Scores(t, rules));
    set i | 0 <= i < |rules| && Hits(t, rules[i].1) == best :: rules[i].0
  }

  /** The first entry of `priority` that is a candidate. */
  function FirstIn(priority: seq<string>, cands: set<string>): (r: Option<string>)
    ensures r.Some? ==> exists k :: 0 <= k < |priority| && priority[k] == r.value && priority[k] in cands
                                    && forall j :: 0 <= j < k ==> priority[j] !in cands
    ensures r.None? <==> forall k :: 0 <= k < |priority| ==> priority[k] !in cands
    decreases |priority|
  {
    if priority == [] then None
    else if priority[0] in cands then Some(priority[0])
    else
      var r := FirstIn(priority[1..], cands);
      if r.Some? then
        var k :| 0 <= k < |priority[1..]| && priority[1..][k] == r.value && priority[1..][k] in cands
                 && forall j :: 0 <= j < k ==> priority[1..][j] !in cands;
        assert priority[k + 1] == r.value;
        r
      else r
  }

  /** The therapeutic class chosen by score before any fallback: "unknown" when no term of
      any class occurs. */
  function TherapyPick(t: string, rules: KeywordRules, priority: seq<string>): string {
    if MaxOf(Scores(t, rules)) > 0 then
      var r := FirstIn(priority, Candidates(t, rules));
      if r.Some? then r.value else Unknown
    else Unknown
  }

  /** With a positive best score and every class listed in the priority list, the pick is
      a best-scoring class and no class before it in the priority list scores as well. */
  lemma PickIsTopScorer(t: string, rules: KeywordRules, priority: seq<string>)
    requires forall i :: 0 <= i < |rules| ==> rules[i].0 in priority
    requires MaxOf(Scores(t, rules)) > 0
    ensures var c := TherapyPick(t, rules, priority);
            (exists i :: 0 <= i < |rules| && rules[i].0 == c && Hits(t, rules[i].1) == MaxOf(Scores(t, rules)))
            && (forall i :: 0 <= i < |rules| ==> Hits(t, rules[i].1) <= MaxOf(Scores(t, rules)))
            && (exists k :: 0 <= k < |priority| && priority[k] == c
                  && forall j :: 0 <= j < k ==> priority[j] !in Candidates(t, rules))
  {
    var s := Scores(t, rules);
    var best := MaxOf(s);
    var cands := Candidates(t, rules);
    assert rules != [];
    var i :| 0 <= i < |s| && s[i] == best;
    assert rules[i].0 in cands;
    var k :| 0 <= k < |priority| && priority[k] == rules[i].0;
    assert priority[k] in cands;
    var r := FirstIn(priority, cands);
    assert r.Some?;
    var c := r.value;
    assert c in cands;
    var i2 :| 0 <= i2 < |rules| && Hits(t, rules[i2].1) == best && rules[i2].0 == c;
  }

  /** The tie-break loop: walk the priority list and stop at the first candidate. */
  method PickByPriority(priority: seq<string>, cands: set<string>) returns (r: string)
    ensures r == (var f := FirstIn(priority, cands); if f.Some? then f.value else Unknown)
  {
    r := Unknown;
    var i := 0;
    while i < |priority|
      invariant 0 <= i <= |priority|
      invariant forall j :: 0 <= j < i ==> priority[j] !in cands
      invariant FirstIn(priority, cands) == FirstIn(priority[i..], cands)
    {
      if priority[i] in cands {
        r := priority[i];
        return;
      }
      assert priority[i..][1..] == priority[i + 1..];
      i := i + 1;
    }
  }

  /** The labels whose terms occur in `t`, in declaration order. */
  function Matched(t: string, rules: KeywordRules): seq<string>
    decreases |rules|
  {
    if rules == [] then []
    else
      var init := Matched(t, rules[..|rules| - 1]);
      if AnyIn(t, rules[|rules| - 1].1) then init + [rules[|rules| - 1].0] else init
  }

  lemma {:induction false} MatchedMembers(t: string, rules: KeywordRules)
    ensures forall tag :: tag in Matched(t, rules) <==>
              exists i :: 0 <= i < |rules| && rules[i].0 == tag && AnyIn(t, rules[i].1)
    decreases |rules|
  {
    if rules != [] {
      var init := rules[..|rules| - 1];
      MatchedMembers(t, init);
      forall tag | exists i :: 0 <= i < |rules| && rules[i].0 == tag && AnyIn(t, rules[i].1)
        ensures tag in Matched(t, rules)
      {
        var i :| 0 <= i < |rules| && rules[i].0 == tag && AnyIn(t, rules[i].1);
        if i < |rules| - 1 {
          assert init[i] == rules[i];
        }
      }
      forall tag | tag in Matched(t, init)
        ensures exists i :: 0 <= i < |rules| && rules[i].0 == tag && AnyIn(t, rules[i].1)
      {
        var i :| 0 <= i < |init| && init[i].0 == tag && AnyIn(t, init[i].1);
        assert rules[i] == init[i];
      }
    }
  }

  /** Labels listed at most once each in a table. */
  predicate DistinctLabels(rules: KeywordRules) {
    forall i, j :: 0 <= i < j < |rules| ==> rules[i].0 != rules[j].0
  }

  /** With distinct labels the matched list already has no repeats. */
  lemma {:induction false} MatchedDistinct(t: string, rules: KeywordRules)
    requires DistinctLabels(rules)
    ensures KeyUnique(Matched(t, rules), Same)
    decreases |rules|
  {
    if rules != [] {
      var init := rules[..|rules| - 1];
      assert DistinctLabels(init) by {
        forall i, j | 0 <= i < j < |init| ensures init[i].0 != init[j].0 {
          assert init[i] == rules[i] && init[j] == rules[j];
        }
      }
      MatchedDistinct(t, init);
      MatchedMembers(t, init);
      var last := rules[|rules| - 1].0;
      assert forall i :: 0 <= i < |init| ==> init[i].0 != last;
      assert last !in Matched(t, init);
    }
  }

  lemma FocusLabelsDistinct()
    ensures DistinctLabels(FocusRules)
  {
  }

  lemma TherapeuticLabelsPrioritised()
    ensures forall i :: 0 <= i < |TherapeuticSignals| ==> TherapeuticSignals[i].0 in TieBreakPriority
  {
  }

  /** The focus loop: append each label whose terms occur. */
  method MatchTags(t: string, rules: KeywordRules) returns (tags: seq<string>)
    ensures tags == Matched(t, rules)
  {
    tags := [];
    var i := 0;
    while i < |rules|
      invariant 0 <= i <= |rules|
      invariant tags == Matched(t, rules[..i])
    {
      assert rules[..i + 1][..i] == rules[..i];
      if AnyIn(t, rules[i].1) {
        tags := tags + [rules[i].0];
      }
      i := i + 1;
    }
    assert rules[..i] == rules;
  }

  /** The fallback when no therapy keyword fired. */
  function Fallback(design: string, focus: seq<string>): string {
    if focus != [] && "biomarker" in focus then "biomarker_diagnostics"
    else if design == "observational" then "observational_non_therapeutic"
    else "context_classified"
  }

  /** classify_study, as the value it returns, over given rule tables. */
  function ClassifyBy(studyType: string, text: string, signals: KeywordRules, priority: seq<string>,
                      focusRules: KeywordRules): Classification {
    var t := Lower(text);
    var design := StudyDesign(studyType);
    var pick := TherapyPick(t, signals, priority);
    var focus := DedupBy(Matched(t, focusRules), Same);
    Classification(design, if pick == Unknown then Fallback(design, focus) else pick, focus)
  }

  /** classify_study, with the classifier's own tables. */
  function Classify(studyType: string, text: string): Classification {
    var t := Lower(text);
    var design := StudyDesign(studyType);
    var pick := TherapyPick(t, TherapeuticSignals, TieBreakPriority);
    var focus := DedupBy(Matched(t, FocusRules), Same);
    Classification(design, if pick == Unknown then Fallback(design, focus) else pick, focus)
  }

  lemma ClassifyIsBy(studyType: string, text: string)
    ensures Classify(studyType, text) == ClassifyBy(studyType, text, TherapeuticSignals, TieBreakPriority, FocusRules)
  {
  }

  /** classify_study: the class is never left "unknown". */
  method ClassifyStudy(studyType: string, text: string) returns (c: Classification)
    ensures c == Classify(studyType, text)
    ensures c.therapeuticClass != Unknown
  {
    c := ClassifyWith(studyType, text, TherapeuticSignals, TieBreakPriority, FocusRules);
    ClassifyIsBy(studyType, text);
    ClassifyNeverUnknown(studyType, text);
  }

  /** classify_study as the source writes it, over given rule tables: fill a record step by
      step. */
  method ClassifyWith(studyType: string, text: string, signals: KeywordRules, priority: seq<string>,
                      focusRules: KeywordRules) returns (c: Classification)
    ensures c == ClassifyBy(studyType, text, signals, priority, focusRules)
  {
    var t := Lower(text);
    c := Classification(Unknown, Unknown, []);
    if studyType == "INTERVENTIONAL" {
      c := c.(studyDesign := "interventional");
    } else if studyType == "OBSERVATIONAL" {
      c := c.(studyDesign := "observational");
    } else if studyType == "EXPANDED_ACCESS" {
      c := c.(studyDesign := "expanded_access");
    }
    var scores := Scores(t, signals);
    var maxScore := MaxOf(scores);
    if maxScore > 0 {
      var cands := Candidates(t, signals);
      var cls := PickByPriority(priority, cands);
      c := c.(therapeuticClass := cls);
    }
    var focus := MatchTags(t, focusRules);
    c := c.(focus := DedupBy(focus, Same));
    if c.therapeuticClass == Unknown && c.focus != [] {
      if "biomarker" in c.focus {
        c := c.(therapeuticClass := "biomarker_diagnostics");
      } else if c.studyDesign == "observational" {
        c := c.(therapeuticClass := "observational_non_therapeutic");
      } else {
        c := c.(therapeuticClass := "context_classified");
      }
    } else if c.therapeuticClass == Unknown {
      if c.studyDesign == "observational" {
        c := c.(therapeuticClass := "observational_non_therapeutic");
      } else {
        c := c.(therapeuticClass := "context_classified");
      }
    }
  }

  /** "unknown" is not a class of the priority list. */
  lemma UnknownNotPrioritised()
    ensures Unknown !in TieBreakPriority
  {
  }

  /** A pick from a priority list without "unknown" is never "unknown". */
  lemma PickNeverUnknown(t: string, signals: KeywordRules, priority: seq<string>)
    requires Unknown !in priority
    ensures var p := FirstIn(priority, Candidates(t, signals));
            p.Some? ==> p.value != Unknown
  {
  }

  /** Over any tables whose priority list leaves out "unknown", the class is never left
      "unknown". */
  lemma ClassifyByNeverUnknown(studyType: string, text: string, signals: KeywordRules, priority: seq<string>,
                               focusRules: KeywordRules)
    requires Unknown !in priority
    ensures ClassifyBy(studyType, text, signals, priority, focusRules).therapeuticClass != Unknown
  {
    PickNeverUnknown(Lower(text), signals, priority);
  }

  /** The classifier never leaves the therapeutic class "unknown". */
  lemma ClassifyNeverUnknown(studyType: string, text: string)
    ensures Classify(studyType, text).therapeuticClass != Unknown
  {
    UnknownNotPrioritised();
    ClassifyIsBy(studyType, text);
    ClassifyByNeverUnknown(studyType, text, TherapeuticSignals, TieBreakPriority, FocusRules);
  }

  /** Over any tables whose priority list lists every class and leaves out "unknown": when
      some keyword occurs, the class is the best-scoring one, ties going to the earliest class
      of the priority list; otherwise the focus-based fallback decides. */
  lemma ClassifyByTherapeuticClass(studyType: string, text: string, signals: KeywordRules,
                                   priority: seq<string>, focusRules: KeywordRules)
    requires Unknown !in priority
    requires forall i :: 0 <= i < |signals| ==> signals[i].0 in priority
    ensures var t := Lower(text);
            var c := ClassifyBy(studyType, text, signals, priority, focusRules);
            var best := MaxOf(Scores(t, signals));
            (best > 0 ==>
              (exists i :: 0 <= i < |signals| && signals[i].0 == c.therapeuticClass
                             && Hits(t, signals[i].1) == best)
              && (forall i :: 0 <= i < |signals| ==> Hits(t, signals[i].1) <= best)
              && (exists k :: 0 <= k < |priority| && priority[k] == c.therapeuticClass
                    && forall j :: 0 <= j < k ==> priority[j] !in Candidates(t, signals)))
            && (best == 0 ==> c.therapeuticClass == Fallback(c.studyDesign, c.focus))
  {
    var t := Lower(text);
    if MaxOf(Scores(t, signals)) > 0 {
      PickNeverUnknown(t, signals, priority);
      PickIsTopScorer(t, signals, priority);
    }
  }

  /** When some therapy keyword occurs, the class is the best-scoring one, ties going to the
      earliest class of the priority list; otherwise the focus-based fallback decides. */
  lemma ClassifyTherapeuticClass(studyType: string, text: string)
    ensures var t := Lower(text);
            var c := Classify(studyType, text);
            var best := MaxOf(Scores(t, TherapeuticSignals));
            (best > 0 ==>
              (exists i :: 0 <= i < |TherapeuticSignals| && TherapeuticSignals[i].0 == c.therapeuticClass
                             && Hits(t, TherapeuticSignals[i].1) == best)
              && (forall i :: 0 <= i < |TherapeuticSignals| ==> Hits(t, TherapeuticSignals[i].1) <= best)
              && (exists k :: 0 <= k < |TieBreakPriority| && TieBreakPriority[k] == c.therapeuticClass
                    && forall j :: 0 <= j < k ==> TieBreakPriority[j] !in Candidates(t, TherapeuticSignals)))
            && (best == 0 ==> c.therapeuticClass == Fallback(c.studyDesign, c.focus))
  {
    UnknownNotPrioritised();
    TherapeuticLabelsPrioritised();
    ClassifyIsBy(studyType, text);
    ClassifyByTherapeuticClass(studyType, text, TherapeuticSignals, TieBreakPriority, FocusRules);
  }

  /** Focus tags: each label whose terms occur, once, in the declaration order of the rules. */
  lemma ClassifyFocus(studyType: string, text: string)
    ensures var t := Lower(text);
            var focus := Classify(studyType, text).focus;
            focus == Matched(t, FocusRules)
            && KeyUnique(focus, Same)
            && forall tag :: tag in focus <==>
                 exists i :: 0 <= i < |FocusRules| && FocusRules[i].0 == tag && AnyIn(t, FocusRules[i].1)
  {
    var t := Lower(text);
    FocusLabelsDistinct();
    MatchedDistinct(t, FocusRules);
    DedupByOfUnique(Matched(t, FocusRules), Same);
    MatchedMembers(t, FocusRules);
  }

  // ---------------------------------------------------------------------------
  // _join_non_empty
  // ---------------------------------------------------------------------------

  /** _join_non_empty: the stripped non-blank values joined by `sep`; "" exactly when every
      value is blank. */
  function JoinNonEmpty(values: seq<string>, sep: string): (r: string)
    ensures r == "" <==> forall k :: 0 <= k < |values| ==> IsBlank(values[k])
  {
    NonBlankTrimmedEmptyIff(values);
    JoinEmptyIff(NonBlankTrimmed(values), sep);
    Join(NonBlankTrimmed(values), sep)
  }

  lemma NonBlankTrimmedEmptyIff(values: seq<string>)
    ensures (forall k :: 0 <= k < |NonBlankTrimmed(values)| ==> NonBlankTrimmed(values)[k] != "")
    ensures NonBlankTrimmed(values) == [] <==> forall k :: 0 <= k < |values| ==> IsBlank(values[k])
  {
    var items := NonBlankTrimmed(values);
    NonBlankTrimmedMembers(values);
    if items != [] {
      assert items[0] in items;
    }
    if exists k :: 0 <= k < |values| && !IsBlank(values[k]) {
      var k :| 0 <= k < |values| && !IsBlank(values[k]);
      assert Trim(values[k]) in items;
    }
    forall k | 0 <= k < |items| ensures items[k] != "" {
      assert items[k] in items;
    }
  }

  /** Every stripped non-blank value shows up in the joined text. */
  lemma JoinNonEmptyMentions(values: seq<string>, sep: string, x: string)
    requires x in values && x != "" && Trim(x) == x
    ensures Contains(JoinNonEmpty(values, sep), x)
  {
    var items := NonBlankTrimmed(values);
    NonBlankTrimmedMembers(values);
    assert x in items;
    var k :| 0 <= k < |items| && items[k] == x;
    JoinContainsItems(items, sep, k);
  }

  /** The non-empty strings of a list, in order (the `if x: out.append(x)` idiom). */
  function Present(xs: seq<string>): seq<string>
    decreases |xs|
  {
    if xs == [] then []
    else
      var init := Present(xs[..|xs| - 1]);
      if xs[|xs| - 1] != "" then init + [xs[|xs| - 1]] else init
  }

  lemma {:induction false} PresentMembers(xs: seq<string>)
    ensures forall x :: x in Present(xs) <==> x != "" && x in xs
    decreases |xs|
  {
    if xs != [] {
      var init := xs[..|xs| - 1];
      PresentMembers(init);
      assert xs == init + [xs[|xs| - 1]];
    }
  }

  lemma PresentStep(xs: seq<string>, i: nat)
    requires i < |xs|
    ensures Present(xs[..i + 1]) == Present(xs[..i]) + (if xs[i] != "" then [xs[i]] else [])
  {
    assert xs[..i + 1][..i] == xs[..i];
  }

  // ---------------------------------------------------------------------------
  // _extract_interventions
  // ---------------------------------------------------------------------------

  /** One entry of armsInterventionsModule.interventions. */
  datatype Intervention = Intervention(name: Cell, kind: Cell)

  /** "TYPE: name" when both are present, the bare name otherwise, "" without a name. */
  function InterventionItem(e: Intervention): string {
    var name := Trim(OrEmpty(e.name));
    var kind := Trim(OrEmpty(e.kind));
    if name != "" && kind != "" then kind + ": " + name else name
  }

  /** The item of every entry that has a name, in order. */
  function InterventionItems(es: seq<Intervention>): seq<string> {
    Present(seq(|es|, i requires 0 <= i < |es| => InterventionItem(es[i])))
  }

  function InterventionKinds(es: seq<Intervention>): seq<string> {
    seq(|es|, i requires 0 <= i < |es| => OrEmpty(es[i].kind))
  }

  /** An item is stripped and carries the entry's name. */
  lemma InterventionItemShape(e: Intervention)
    ensures var item := InterventionItem(e);
            var name := Trim(OrEmpty(e.name));
            Trim(item) == item && (item != "" <==> name != "") && Contains(item, name)
  {
    var name := Trim(OrEmpty(e.name));
    var kind := Trim(OrEmpty(e.kind));
    var item := InterventionItem(e);
    if name != "" && kind != "" {
      assert item[0] == kind[0] && item[|item| - 1] == name[|name| - 1];
      TrimOfTrimmed(item);
      ContainsInConcat(kind + ": ", name, name);
      assert OccursAt(name, name, 0);
      ContainsAt(name, name, 0);
    } else {
      TrimIdempotent(OrEmpty(e.name));
      assert OccursAt(name, name, 0);
      ContainsAt(name, name, 0);
    }
  }

  /** _extract_interventions as the source writes it: one pass that collects items and
      first-seen types. The types come out each once, in first-seen order, joined by ", ". */
  method ExtractInterventions(es: seq<Intervention>) returns (interventions: string, types: string)
    ensures interventions == JoinNonEmpty(InterventionItems(es), " | ")
    ensures types == Join(Uniqued(InterventionKinds(es)), ", ")
  {
    var items: seq<string> := [];
    var kinds: seq<string> := [];
    ghost var raw := InterventionKinds(es);
    ghost var all := seq(|es|, i requires 0 <= i < |es| => InterventionItem(es[i]));
    var i := 0;
    while i < |es|
      invariant 0 <= i <= |es|
      invariant items == Present(all[..i])
      invariant kinds == DedupBy(NonBlankTrimmed(raw[..i]), Same)
    {
      var kind := Trim(OrEmpty(es[i].kind));
      assert raw[i] == OrEmpty(es[i].kind) && all[i] == InterventionItem(es[i]);
      UniqStep(raw, i);
      PresentStep(all, i);
      if kind != "" && kind !in kinds {
        kinds := kinds + [kind];
      }
      var item := InterventionItemOf(es[i]);
      if item != "" {
        items := items + [item];
      }
      i := i + 1;
    }
    assert all[..i] == all;
    assert raw[..i] == raw;
    interventions := JoinNonEmpty(items, " | ");
    UniquedSpec(raw);
    NonBlankTrimmedOfClean(kinds);
    types := JoinNonEmpty(kinds, ", ");
  }

  /** The item of one entry, as the loop body builds it. */
  method InterventionItemOf(e: Intervention) returns (item: string)
    ensures item == InterventionItem(e)
  {
    var name := Trim(OrEmpty(e.name));
    var kind := Trim(OrEmpty(e.kind));
    item := "";
    if name != "" && kind != "" {
      item := kind + ": " + name;
    } else if name != "" {
      item := name;
    }
  }

  /** Every named intervention's name appears in the interventions column. */
  lemma InterventionsMentionNames(es: seq<Intervention>, k: nat)
    requires k < |es| && !IsBlank(OrEmpty(es[k].name))
    ensures Contains(JoinNonEmpty(InterventionItems(es), " | "), Trim(OrEmpty(es[k].name)))
  {
    var item := InterventionItem(es[k]);
    InterventionItemShape(es[k]);
    var all := seq(|es|, i requires 0 <= i < |es| => InterventionItem(es[i]));
    PresentMembers(all);
    assert all[k] == item;
    JoinNonEmptyMentions(InterventionItems(es), " | ", item);
    ContainsTransitive(JoinNonEmpty(InterventionItems(es), " | "), item, Trim(OrEmpty(es[k].name)));
  }

  // ---------------------------------------------------------------------------
  // _extract_outcomes
  // ---------------------------------------------------------------------------

  /** One entry of outcomesModule.primaryOutcomes / secondaryOutcomes. */
  datatype Outcome = Outcome(measure: Cell, timeFrame: Cell, description: Cell)

  /** The non-empty chunks of one outcome: measure, "timeframe=...", description. */
  function OutcomeChunks(o: Outcome): seq<string> {
    ChunksOf(Trim(OrEmpty(o.measure)), Trim(OrEmpty(o.timeFrame)), Trim(OrEmpty(o.description)))
  }

  function ChunksOf(measure: string, timeFrame: string, description: string): seq<string> {
    (if measure != "" then [measure] else [])
    + (if timeFrame != "" then ["timeframe=" + timeFrame] else [])
    + (if description != "" then [description] else [])
  }

  function OutcomeText(o: Outcome): string {
    Join(OutcomeChunks(o), " ; ")
  }

  function OutcomeTexts(os: seq<Outcome>): (r: seq<string>)
    ensures |r| == |os|
    decreases |os|
  {
    if os == [] then [] else OutcomeTexts(os[..|os| - 1]) + [OutcomeText(os[|os| - 1])]
  }

  lemma {:induction false} OutcomeTextsAt(os: seq<Outcome>, k: nat)
    requires k < |os|
    ensures OutcomeTexts(os)[k] == OutcomeText(os[k])
    decreases |os|
  {
    var init := os[..|os| - 1];
    assert OutcomeTexts(os) == OutcomeTexts(init) + [OutcomeText(os[|os| - 1])];
    if k < |os| - 1 {
      OutcomeTextsAt(init, k);
      assert init[k] == os[k];
    }
  }

  lemma OutcomeTextsStep(os: seq<Outcome>, i: nat)
    requires i < |os|
    ensures OutcomeTexts(os[..i + 1]) == OutcomeTexts(os[..i]) + [OutcomeText(os[i])]
  {
    assert os[..i + 1][..i] == os[..i];
  }

  /** _extract_outcomes: one text per entry, joined by " | ". */
  method ExtractOutcomes(os: seq<Outcome>) returns (r: string)
    ensures r == JoinNonEmpty(OutcomeTexts(os), " | ")
  {
    var values: seq<string> := [];
    var i := 0;
    while i < |os|
      invariant 0 <= i <= |os|
      invariant values == OutcomeTexts(os[..i])
    {
      var text := OutcomeTextOf(os[i]);
      OutcomeTextsStep(os, i);
      values := values + [text];
      i := i + 1;
    }
    assert os[..i] == os;
    r := JoinNonEmpty(values, " | ");
  }

  /** The body of the outcome loop: gather the chunks and join them by " ; ". */
  method OutcomeTextOf(o: Outcome) returns (text: string)
    ensures text == OutcomeText(o)
  {
    var measure := Trim(OrEmpty(o.measure));
    var timeFrame := Trim(OrEmpty(o.timeFrame));
    var description := Trim(OrEmpty(o.description));
    var chunks := if measure != "" then [measure] else [];
    if timeFrame != "" {
      chunks := chunks + ["timeframe=" + timeFrame];
    }
    if description != "" {
      chunks := chunks + [description];
    }
    assert chunks == ChunksOf(measure, timeFrame, description);
    text := Join(chunks, " ; ");
  }

  lemma ChunksOfStripped(measure: string, timeFrame: string, description: string)
    requires Trim(measure) == measure && Trim(timeFrame) == timeFrame && Trim(description) == description
    ensures var cs := ChunksOf(measure, timeFrame, description);
            forall k :: 0 <= k < |cs| ==> cs[k] != [] && Trim(cs[k]) == cs[k]
  {
    if timeFrame != "" {
      var tf := "timeframe=" + timeFrame;
      assert tf[0] == 't' && tf[|tf| - 1] == timeFrame[|timeFrame| - 1];
      TrimOfTrimmed(tf);
    }
    var cs := ChunksOf(measure, timeFrame, description);
    var a := if measure != "" then [measure] else [];
    var b := if timeFrame != "" then ["timeframe=" + timeFrame] else [];
    var c := if description != "" then [description] else [];
    assert cs == a + b + c;
    forall k | 0 <= k < |cs| ensures cs[k] != [] && Trim(cs[k]) == cs[k] {
      if k < |a| {
        assert cs[k] == measure;
      } else if k < |a| + |b| {
        assert cs[k] == "timeframe=" + timeFrame;
      } else {
        assert cs[k] == description;
      }
    }
  }

  lemma OutcomeChunksStripped(o: Outcome)
    ensures forall k :: 0 <= k < |OutcomeChunks(o)| ==>
              OutcomeChunks(o)[k] != [] && Trim(OutcomeChunks(o)[k]) == OutcomeChunks(o)[k]
  {
    TrimIdempotent(OrEmpty(o.measure));
    TrimIdempotent(OrEmpty(o.timeFrame));
    TrimIdempotent(OrEmpty(o.description));
    ChunksOfStripped(Trim(OrEmpty(o.measure)), Trim(OrEmpty(o.timeFrame)), Trim(OrEmpty(o.description)));
  }

  /** The measure, the "timeframe=" chunk and the description of every outcome appear in
      the extracted text. */
  lemma OutcomesMentionChunks(os: seq<Outcome>, k: nat, c: nat)
    requires k < |os| && c < |OutcomeChunks(os[k])|
    ensures Contains(JoinNonEmpty(OutcomeTexts(os), " | "), OutcomeChunks(os[k])[c])
  {
    var o := os[k];
    var text := OutcomeText(o);
    OutcomeChunksStripped(o);
    JoinOfStripped(OutcomeChunks(o), " ; ");
    JoinContainsItems(OutcomeChunks(o), " ; ", c);
    OutcomeTextsAt(os, k);
    JoinNonEmptyMentions(OutcomeTexts(os), " | ", text);
    ContainsTransitive(JoinNonEmpty(OutcomeTexts(os), " | "), text, OutcomeChunks(o)[c]);
  }

  // ---------------------------------------------------------------------------
  // _extract_locations
  // ---------------------------------------------------------------------------

  /** The facility entry of a location: an object with a name, or a plain value. */
  datatype Facility = FacilityObject(name: Cell) | FacilityValue(value: Cell)

  /** One entry of contactsLocationsModule.locations. */
  datatype Location = Location(facility: Facility, facilityName: Cell, city: Cell, country: Cell)

  function FacilityOf(l: Location): string {
    match l.facility
    case FacilityObject(name) => Trim(OrEmpty(name))
    case FacilityValue(v) => Trim(if OrEmpty(v) != "" then OrEmpty(v) else OrEmpty(l.facilityName))
  }

  /** City and country, those present, joined by ", ". */
  function PlaceOf(l: Location): string {
    var city := Trim(OrEmpty(l.city));
    var country := Trim(OrEmpty(l.country));
    Join((if city != "" then [city] else []) + (if country != "" then [country] else []), ", ")
  }

  /** "facility (place)", or whichever of the two is present, or "". */
  function LocationEntry(l: Location): string {
    var facility := FacilityOf(l);
    var place := PlaceOf(l);
    if facility != "" && place != "" then facility + " (" + place + ")"
    else if facility != "" then facility
    else place
  }

  function LocationEntries(ls: seq<Location>): seq<string> {
    Present(seq(|ls|, i requires 0 <= i < |ls| => LocationEntry(ls[i])))
  }

  /** _extract_locations: the entries of the locations that have something to show. */
  method ExtractLocations(ls: seq<Location>) returns (r: string)
    ensures r == JoinNonEmpty(LocationEntries(ls), " | ")
  {
    var entries: seq<string> := [];
    ghost var all := seq(|ls|, i requires 0 <= i < |ls| => LocationEntry(ls[i]));
    var i := 0;
    while i < |ls|
      invariant 0 <= i <= |ls|
      invariant entries == Present(all[..i])
    {
      PresentStep(all, i);
      var entry := LocationEntryOf(ls[i]);
      if entry != "" {
        entries := entries + [entry];
      }
      i := i + 1;
    }
    assert all[..i] == all;
    r := JoinNonEmpty(entries, " | ");
  }

  /** The entry of one location, as the loop body builds it. */
  method LocationEntryOf(l: Location) returns (entry: string)
    ensures entry == LocationEntry(l)
  {
    var facility := "";
    if l.facility.FacilityObject? {
      facility := Trim(OrEmpty(l.facility.name));
    } else {
      facility := Trim(if OrEmpty(l.facility.value) != "" then OrEmpty(l.facility.value) else OrEmpty(l.facilityName));
    }
    var city := Trim(OrEmpty(l.city));
    var country := Trim(OrEmpty(l.country));
    var place := Join((if city != "" then [city] else []) + (if country != "" then [country] else []), ", ");
    entry := "";
    if facility != "" && place != "" {
      entry := facility + " (" + place + ")";
    } else if facility != "" {
      entry := facility;
    } else if place != "" {
      entry := place;
    }
  }

  lemma FacilityStripped(l: Location)
    ensures Trim(FacilityOf(l)) == FacilityOf(l)
  {
    match l.facility
    case FacilityObject(name) => TrimIdempotent(OrEmpty(name));
    case FacilityValue(v) =>
      TrimIdempotent(if OrEmpty(v) != "" then OrEmpty(v) else OrEmpty(l.facilityName));
  }

  lemma PlaceStripped(l: Location)
    ensures Trim(PlaceOf(l)) == PlaceOf(l)
  {
    var city := Trim(OrEmpty(l.city));
    var country := Trim(OrEmpty(l.country));
    var cs := (if city != "" then [city] else []) + (if country != "" then [country] else []);
    TrimIdempotent(OrEmpty(l.city));
    TrimIdempotent(OrEmpty(l.country));
    JoinOfStripped(cs, ", ");
  }

  /** "a (b)" is stripped when `a` is, and contains `a`. */
  lemma Parenthesised(a: string, b: string)
    requires a != "" && Trim(a) == a
    ensures Trim(a + " (" + b + ")") == a + " (" + b + ")"
    ensures Contains(a + " (" + b + ")", a)
  {
    var tail := " (" + b + ")";
    var w := a + tail;
    assert a + " (" + b + ")" == w;
    assert w[0] == a[0] && w[|w| - 1] == ')';
    TrimOfTrimmed(w);
    assert OccursAt(w, a, 0);
    ContainsAt(w, a, 0);
  }

  /** An entry is stripped and names the location's facility. */
  lemma LocationEntryShape(l: Location)
    ensures Trim(LocationEntry(l)) == LocationEntry(l)
    ensures FacilityOf(l) != "" ==> Contains(LocationEntry(l), FacilityOf(l))
  {
    var facility := FacilityOf(l);
    var place := PlaceOf(l);
    var entry := LocationEntry(l);
    FacilityStripped(l);
    PlaceStripped(l);
    if facility != "" {
      assert OccursAt(facility, facility, 0);
      ContainsAt(facility, facility, 0);
      if place != "" {
        Parenthesised(facility, place);
      }
    }
  }

  /** Every facility name appears in the locations column. */
  lemma LocationsMentionFacilities(ls: seq<Location>, k: nat)
    requires k < |ls| && FacilityOf(ls[k]) != ""
    ensures Contains(JoinNonEmpty(LocationEntries(ls), " | "), FacilityOf(ls[k]))
  {
    var entry := LocationEntry(ls[k]);
    LocationEntryShape(ls[k]);
    var all := seq(|ls|, i requires 0 <= i < |ls| => LocationEntry(ls[i]));
    PresentMembers(all);
    assert all[k] == entry;
    JoinNonEmptyMentions(LocationEntries(ls), " | ", entry);
    ContainsTransitive(JoinNonEmpty(LocationEntries(ls), " | "), entry, FacilityOf(ls[k]));
  }

  // ---------------------------------------------------------------------------
  // _pick_date and _extract_result_flags
  // ---------------------------------------------------------------------------

  /** What one module value contributes as a date: a non-empty string as is, an object's
      non-empty "date" through str(), and nothing ("") otherwise. */
  function DateOf(v: Json): (r: string)
    ensures r != "" <==> (v.JStr? && v.s != "") || (v.JObj? && v.fields != map[] && Truthy(Get(v.fields, "date")))
  {
    if !Truthy(v) then ""
    else match v
      case JObj(fields) => (if Truthy(Get(fields, "date")) then PyStr(Get(fields, "date")) else "")
      case JStr(s) => s
      case _ => ""
  }

  /** _pick_date: the date of the first key whose value yields one, else "". */
  function PickDate(m: map<string, Json>, keys: seq<string>): (r: string)
    ensures r == "" <==> forall k :: 0 <= k < |keys| ==> DateOf(Get(m, keys[k])) == ""
    ensures r != "" ==> exists k :: 0 <= k < |keys| && r == DateOf(Get(m, keys[k]))
                                   && forall j :: 0 <= j < k ==> DateOf(Get(m, keys[j])) == ""
    decreases |keys|
  {
    if keys == [] then ""
    else
      var d := DateOf(Get(m, keys[0]));
      if d != "" then d
      else
        var r := PickDate(m, keys[1..]);
        assert forall k :: 1 <= k < |keys| ==> keys[1..][k - 1] == keys[k];
        if r != "" then
          var k :| 0 <= k < |keys[1..]| && r == DateOf(Get(m, keys[1..][k]))
                   && forall j :: 0 <= j < k ==> DateOf(Get(m, keys[1..][j])) == "";
          assert r == DateOf(Get(m, keys[k + 1]));
          r
        else r
  }

  /** The loop of _pick_date, returning at the first usable value. */
  method PickDateOf(m: map<string, Json>, keys: seq<string>) returns (r: string)
    ensures r == PickDate(m, keys)
  {
    var i := 0;
    while i < |keys|
      invariant 0 <= i <= |keys|
      invariant PickDate(m, keys) == PickDate(m, keys[i..])
    {
      var value := Get(m, keys[i]);
      assert keys[i..][1..] == keys[i + 1..];
      if !Truthy(value) {
        i := i + 1;
        continue;
      }
      if value.JObj? {
        var dateValue := Get(value.fields, "date");
        if Truthy(dateValue) {
          return PyStr(dateValue);
        }
      } else if value.JStr? {
        return value.s;
      }
      i := i + 1;
    }
    return "";
  }

  datatype ResultFlags = ResultFlags(hasResults: string, resultsLastUpdate: string)

  const ResultDateKeys: seq<string> := [
    "resultsFirstPostDateStruct",
    "resultsFirstSubmitDate",
    "resultsFirstPostDate",
    "resultsFirstSubmitQcDate"]

  /** The three places hasResults is looked up, in order; None where the source fails on a
      derivedSection that is present but not an object. */
  function ResultContainers(protocol: map<string, Json>, derived: map<string, Json>): Option<seq<Json>> {
    var section := GetOr(protocol, "derivedSection", JObj(map[]));
    if !section.JObj? then None
    else Some([GetOr(derived, "miscInfoModule", JObj(map[])),
               GetOr(protocol, "statusModule", JObj(map[])),
               GetOr(section.fields, "miscInfoModule", JObj(map[]))])
  }

  /** The has_results text of one raw hasResults value. */
  function FlagOf(raw: Json): string {
    match raw
    case JBool(b) => if b then "yes" else "no"
    case JNull => ""
    case _ => Lower(PyStr(raw))
  }

  predicate HoldsFlag(c: Json) {
    c.JObj? && "hasResults" in c.fields
  }

  /** The flag of the first container that holds a hasResults entry, "" when none does. */
  function HasResultsIn(cs: seq<Json>): (r: string)
    ensures (forall k :: 0 <= k < |cs| ==> !HoldsFlag(cs[k])) ==> r == ""
    ensures forall k :: 0 <= k < |cs| && HoldsFlag(cs[k]) && (forall j :: 0 <= j < k ==> !HoldsFlag(cs[j]))
              ==> r == FlagOf(cs[k].fields["hasResults"])
    decreases |cs|
  {
    if cs == [] then ""
    else if HoldsFlag(cs[0]) then FlagOf(cs[0].fields["hasResults"])
    else
      assert forall k :: 1 <= k < |cs| ==> cs[1..][k - 1] == cs[k];
      HasResultsIn(cs[1..])
  }

  /** _extract_result_flags: the has_results flag of the first container holding one and the
      first results date of the status module; None where the source raises. */
  method ExtractResultFlags(protocol: map<string, Json>, derived: map<string, Json>,
                            statusModule: map<string, Json>) returns (r: Option<ResultFlags>)
    ensures ResultContainers(protocol, derived).None? <==> r.None?
    ensures r.Some? ==> r.value == ResultFlags(HasResultsIn(ResultContainers(protocol, derived).value),
                                               PickDate(statusModule, ResultDateKeys))
  {
    var containers := ResultContainers(protocol, derived);
    if containers.None? {
      return None;
    }
    var cs := containers.value;
    var hasResults := "";
    var i := 0;
    while i < |cs|
      invariant 0 <= i <= |cs|
      invariant forall j :: 0 <= j < i ==> !HoldsFlag(cs[j])
      invariant HasResultsIn(cs) == HasResultsIn(cs[i..])
      invariant hasResults == ""
    {
      assert cs[i..][1..] == cs[i + 1..];
      if cs[i].JObj? && "hasResults" in cs[i].fields {
        var raw := cs[i].fields["hasResults"];
        if raw == JBool(true) {
          hasResults := "yes";
        } else if raw == JBool(false) {
          hasResults := "no";
        } else if raw != JNull {
          hasResults := Lower(PyStr(raw));
        }
        break;
      }
      i := i + 1;
    }
    var resultsLastUpdate := PickDateOf(statusModule, ResultDateKeys);
    return Some(ResultFlags(hasResults, resultsLastUpdate));
  }

  /** The has_results value a fetched study carries: the extracted flag, or, when that is
      empty, "yes" exactly when a results date was found. */
  function StudyHasResults(flags: ResultFlags): (r: string)
    ensures r != ""
    ensures flags.hasResults != "" ==> r == flags.hasResults
    ensures flags.hasResults == "" ==> (r == "yes" <==> flags.resultsLastUpdate != "")
  {
    if flags.hasResults != "" then flags.hasResults
    else if flags.resultsLastUpdate != "" then "yes" else "no"
  }
}
