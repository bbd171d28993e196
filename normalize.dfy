/** normalize_trial and its two inference rules: a study dict from the registry fetchers
    becomes a flat record whose classification fields are copied, whose dict-shaped dates
    are parsed, and whose disease setting and line of therapy are read off the focus tags
    and the title. */
module Normalize {
  import opened Text
  import opened Records
  import ClinicalTrials

  /** A calendar date as datetime.date holds it. */
  datatype CalendarDate = CalendarDate(year: int, month: int, day: int)

  /** A date field of the normalized record: parsed from a dict, or passed through as given. */
  datatype DateField = Parsed(date: Option<CalendarDate>) | Passed(value: Json)

  /** parse_date. datetime.strptime(_, "%Y-%m-%d") is the `strptime` parameter; a failure is
      None there, and so is any exception the call would raise here (a missing or non-string
      "date"). */
  function ParseDate(dateStruct: Json, strptime: string -> Option<CalendarDate>): (r: Option<CalendarDate>)
    ensures !Truthy(dateStruct) ==> r == None
    ensures r.Some? ==> dateStruct.JObj? && "date" in dateStruct.fields && dateStruct.fields["date"].JStr? &&
                        strptime(dateStruct.fields["date"].s) == r
  {
    if !Truthy(dateStruct) then None
    else if dateStruct.JObj? && Get(dateStruct.fields, "date").JStr? then strptime(Get(dateStruct.fields, "date").s)
    else None
  }

  /** A dict date goes through parse_date; anything else is kept as it is. */
  function DateOf(v: Json, strptime: string -> Option<CalendarDate>): (r: DateField)
    ensures r.Passed? <==> !v.JObj?
    ensures r.Passed? ==> r.value == v
    ensures r.Parsed? ==> r.date == ParseDate(v, strptime)
  {
    if v.JObj? then Parsed(ParseDate(v, strptime)) else Passed(v)
  }

  /** What `(study.get(key) or "").lower()` may be applied to: None, a falsy value or a str.
      A truthy non-string has no .lower() and the source raises. */
  predicate TextLike(v: Json) {
    !Truthy(v) || v.JStr?
  }

  /** `(v or "")` for a text-like value. */
  function TextOf(v: Json): string
    requires TextLike(v)
  {
    if Truthy(v) then v.s else ""
  }

  const Advanced := "advanced"
  const Resectable := "resectable"
  const Unspecified := "unspecified"

  /** infer_setting */
  function InferSetting(study: map<string, Json>): string
    requires TextLike(Get(study, "focus_tags"))
  {
    var tags := Lower(TextOf(Get(study, "focus_tags")));
    if Contains(tags, AdvancedTag) then Advanced
    else if Contains(tags, ResectableTag) then Resectable
    else Unspecified
  }

  /** infer_line_of_therapy */
  function InferLineOfTherapy(study: map<string, Json>): string
    requires TextLike(Get(study, "title"))
  {
    var title := Lower(TextOf(Get(study, "title")));
    if Contains(title, "first-line") then "first_line"
    else if Contains(title, "second-line") then "second_line"
    else if Contains(title, "refractory") then "refractory"
    else Unspecified
  }

  /** The dict normalize_trial returns. */
  datatype NormalizedTrial = NormalizedTrial(
    nctId: Json,
    title: Json,
    studyType: Json,
    studyDesign: Json,
    phase: Json,
    status: Json,
    sponsor: Json,
    pdacMatchReason: Json,
    therapeuticClass: Json,
    focusTags: Json,
    startDate: DateField,
    primaryCompletionDate: DateField,
    setting: string,
    lineOfTherapy: string)

  predicate Normalizable(study: map<string, Json>) {
    TextLike(Get(study, "focus_tags")) && TextLike(Get(study, "title"))
  }

  /** normalize_trial */
  function NormalizeTrial(study: map<string, Json>, strptime: string -> Option<CalendarDate>): NormalizedTrial
    requires Normalizable(study)
  {
    NormalizedTrial(
      nctId := Get(study, "nct_id"),
      title := Get(study, "title"),
      studyType := Get(study, "study_type"),
      studyDesign := Get(study, "study_design"),
      phase := Get(study, "phase"),
      status := Get(study, "status"),
      sponsor := Get(study, "sponsor"),
      pdacMatchReason := Get(study, "pdac_match_reason"),
      therapeuticClass := Get(study, "therapeutic_class"),
      focusTags := Get(study, "focus_tags"),
      startDate := DateOf(Get(study, "start_date"), strptime),
      primaryCompletionDate := DateOf(Get(study, "primary_completion_date"), strptime),
      setting := InferSetting(study),
      lineOfTherapy := InferLineOfTherapy(study))
  }

  // ---------------------------------------------------------------------------
  // The precedence rules
  // ---------------------------------------------------------------------------

  /** The setting is one of three labels: "advanced" whenever the lower-cased tags mention
      advanced_disease, "resectable" when they mention only resectable_disease, and
      "unspecified" otherwise, which includes missing or empty tags. */
  lemma SettingRule(study: map<string, Json>)
    requires TextLike(Get(study, "focus_tags"))
    ensures var tags := Lower(TextOf(Get(study, "focus_tags")));
            var r := InferSetting(study);
            r in {Advanced, Resectable, Unspecified} &&
            (r == Advanced <==> Contains(tags, AdvancedTag)) &&
            (r == Resectable <==> !Contains(tags, AdvancedTag) && Contains(tags, ResectableTag)) &&
            (r == Unspecified <==> !Contains(tags, AdvancedTag) && !Contains(tags, ResectableTag))
    ensures !Truthy(Get(study, "focus_tags")) ==> InferSetting(study) == Unspecified
  {
    if !Truthy(Get(study, "focus_tags")) {
      NothingInEmpty(AdvancedTag);
      NothingInEmpty(ResectableTag);
    }
  }

  /** A non-empty pattern never occurs in "". */
  lemma NothingInEmpty(sub: string)
    requires sub != ""
    ensures !Contains(Lower(""), sub)
  {
    assert Lower("") == "";
  }

  /** The line of therapy: first-line beats second-line beats refractory, and a missing or
      empty title gives "unspecified". */
  lemma LineOfTherapyRule(study: map<string, Json>)
    requires TextLike(Get(study, "title"))
    ensures var t := Lower(TextOf(Get(study, "title")));
            var r := InferLineOfTherapy(study);
            r in {"first_line", "second_line", "refractory", Unspecified} &&
            (r == "first_line" <==> Contains(t, "first-line")) &&
            (r == "second_line" <==> !Contains(t, "first-line") && Contains(t, "second-line")) &&
            (r == "refractory" <==>
               !Contains(t, "first-line") && !Contains(t, "second-line") && Contains(t, "refractory")) &&
            (r == Unspecified <==> !AnyIn(t, ["first-line", "second-line", "refractory"]))
    ensures !Truthy(Get(study, "title")) ==> InferLineOfTherapy(study) == Unspecified
  {
    var t := Lower(TextOf(Get(study, "title")));
    var terms := ["first-line", "second-line", "refractory"];
    if AnyIn(t, terms) {
      var j :| 0 <= j < |terms| && Contains(t, terms[j]);
    }
    assert Contains(t, terms[0]) ==> AnyIn(t, terms);
    assert Contains(t, terms[1]) ==> AnyIn(t, terms);
    assert Contains(t, terms[2]) ==> AnyIn(t, terms);
    if !Truthy(Get(study, "title")) {
      NothingInEmpty("first-line");
      NothingInEmpty("second-line");
      NothingInEmpty("refractory");
    }
  }

  /** The line of therapy is specified exactly when the classifier, run on the title alone,
      gives the study the line_of_therapy focus tag. */
  lemma LineOfTherapyMatchesFocus(study: map<string, Json>, studyType: string)
    requires TextLike(Get(study, "title"))
    ensures InferLineOfTherapy(study) != Unspecified <==>
              "line_of_therapy" in ClinicalTrials.Classify(studyType, TextOf(Get(study, "title"))).focus
  {
    var title := TextOf(Get(study, "title"));
    var t := Lower(title);
    LineOfTherapyRule(study);
    ClinicalTrials.ClassifyFocus(studyType, title);
    ClinicalTrials.FocusLabelsDistinct();
    var rules := ClinicalTrials.FocusRules;
    assert rules[12] == ("line_of_therapy", ["first-line", "second-line", "refractory"]);
    forall i | 0 <= i < |rules| && rules[i].0 == "line_of_therapy" ensures i == 12 {
    }
  }

  /** The labels of the classifier's focus rules, grouped by how they compare in length with
      the two setting tags. */
  predicate IsFocusLabel(l: string) {
    ShortLabel(l) || LongLabel(l) || l == "advanced_disease" || l == "resectable_disease"
  }

  /** The focus labels shorter than either setting tag. */
  predicate ShortLabel(l: string) {
    l == "biomarker" || l == "early_detection" || l == "liquid_biopsy" ||
    l == "hereditary_risk" || l == "line_of_therapy"
  }

  /** The focus labels, other than the setting tags, at least as long as either of them. */
  predicate LongLabel(l: string) {
    l == "imaging_diagnostics" || l == "genomics_precision" || l == "supportive_outcomes" ||
    l == "locoregional_procedure" || l == "microbiome_metabolic" || l == "registry_real_world"
  }


  lemma FocusRuleLabels()
    ensures forall i :: 0 <= i < |ClinicalTrials.FocusRules| ==> IsFocusLabel(ClinicalTrials.FocusRules[i].0)
  {
  }

  /** A pattern longer than the text does not occur in it. */
  lemma TooShort(l: string, tag: string)
    requires |l| < |tag|
    ensures !Contains(l, tag)
  {
    ContainsIff(l, tag);
  }

  /** A pattern that differs, at one fixed offset, from every window of the lower-cased
      text does not occur in it. */
  lemma MismatchAt(l: string, tag: string, j: nat)
    requires j < |tag| && forall i :: j <= i <= |l| - |tag| + j ==> LowerChar(l[i]) != tag[j]
    ensures !Contains(Lower(l), tag)
  {
    ContainsIff(Lower(l), tag);
  }

  const AdvancedTag := "advanced_disease"
  const ResectableTag := "resectable_disease"

  /** What the setting rule needs of a label: it holds a setting tag, once lower-cased,
      only when it is that tag. */
  predicate SettingSafe(l: string) {
    (Contains(Lower(l), AdvancedTag) <==> l == AdvancedTag) &&
    (Contains(Lower(l), ResectableTag) <==> l == ResectableTag)
  }

  /** A setting tag occurs in itself, lower-cased. */
  lemma TagsSelfContained()
    ensures Contains(Lower(AdvancedTag), AdvancedTag)
    ensures Contains(Lower(ResectableTag), ResectableTag)
  {
    assert Lower(AdvancedTag) == AdvancedTag;
    assert Lower(ResectableTag) == ResectableTag;
    assert OccursAt(AdvancedTag, AdvancedTag, 0);
    assert OccursAt(ResectableTag, ResectableTag, 0);
    ContainsAt(AdvancedTag, AdvancedTag, 0);
    ContainsAt(ResectableTag, ResectableTag, 0);
  }

  /** A short label is too short to hold a setting tag. */
  lemma ShortLabelSafe(l: string)
    requires ShortLabel(l)
    ensures SettingSafe(l)
  {
    TooShort(Lower(l), AdvancedTag);
    TooShort(Lower(l), ResectableTag);
  }

  /** A label with no 'v' and no 's' where a setting tag's third letter would fall holds
      neither tag. */
  lemma MismatchBoth(l: string)
    requires l != AdvancedTag && l != ResectableTag
    requires forall i :: 2 <= i <= |l| - |AdvancedTag| + 2 ==> LowerChar(l[i]) != 'v'
    requires forall i :: 2 <= i <= |l| - |ResectableTag| + 2 ==> LowerChar(l[i]) != 's'
    ensures SettingSafe(l)
  {
    MismatchAt(l, AdvancedTag, 2);
    MismatchAt(l, ResectableTag, 2);
  }

  /** No long label holds a setting tag. */
  lemma LongLabelSafe(l: string)
    requires LongLabel(l)
    ensures SettingSafe(l)
  {
    if l == "imaging_diagnostics" {
      MismatchBoth("imaging_diagnostics");
    } else if l == "genomics_precision" {
      MismatchBoth("genomics_precision");
    } else if l == "supportive_outcomes" {
      MismatchBoth("supportive_outcomes");
    } else if l == "locoregional_procedure" {
      MismatchBoth("locoregional_procedure");
    } else if l == "microbiome_metabolic" {
      MismatchBoth("microbiome_metabolic");
    } else {
      MismatchBoth("registry_real_world");
    }
  }

  /** Each setting tag holds itself, and not the other one. */
  lemma TagLabelsSafe()
    ensures SettingSafe(AdvancedTag) && SettingSafe(ResectableTag)
  {
    TagsSelfContained();
    TooShort(Lower(AdvancedTag), ResectableTag);
    MismatchAt(ResectableTag, AdvancedTag, 2);
  }

  /** No focus label holds a setting tag, lower-cased, unless it is that tag. */
  lemma FocusLabelSafe(l: string)
    requires IsFocusLabel(l)
    ensures SettingSafe(l)
  {
    if ShortLabel(l) {
      ShortLabelSafe(l);
    } else if LongLabel(l) {
      LongLabelSafe(l);
    } else {
      TagLabelsSafe();
    }
  }

  /** Labels in a comma-joined list: once lower-cased, the text holds a setting tag exactly
      when the tag is one of the labels. */
  lemma {:induction false} JoinedLabelsContain(labels: seq<string>)
    requires forall k :: 0 <= k < |labels| ==> SettingSafe(labels[k])
    ensures Contains(Lower(Join(labels, ",")), AdvancedTag) <==> AdvancedTag in labels
    ensures Contains(Lower(Join(labels, ",")), ResectableTag) <==> ResectableTag in labels
    decreases |labels|
  {
    if labels == [] {
      TooShort(Lower(""), AdvancedTag);
      TooShort(Lower(""), ResectableTag);
    } else {
      var head := labels[0];
      assert SettingSafe(head);
      if |labels| == 1 {
        assert labels == [head];
      } else {
        var rest := Join(labels[1..], ",");
        JoinedLabelsContain(labels[1..]);
        assert Join(labels, ",") == head + [','] + rest;
        LowerAppend(head + [','], rest);
        LowerAppend(head, [',']);
        assert Lower([',']) == [','];
        ContainsAcrossSeparator(Lower(head), ',', Lower(rest), AdvancedTag);
        ContainsAcrossSeparator(Lower(head), ',', Lower(rest), ResectableTag);
        assert labels == [head] + labels[1..];
      }
    }
  }

  /** Every label the classifier writes holds a setting tag only when it is that tag. */
  lemma FocusSettingSafe(studyType: string, text: string)
    ensures var focus := ClinicalTrials.Classify(studyType, text).focus;
            forall k :: 0 <= k < |focus| ==> SettingSafe(focus[k])
  {
    var focus := ClinicalTrials.Classify(studyType, text).focus;
    ClinicalTrials.ClassifyFocus(studyType, text);
    FocusRuleLabels();
    forall k | 0 <= k < |focus| ensures SettingSafe(focus[k]) {
      assert focus[k] in focus;
      FocusLabelSafe(focus[k]);
    }
  }

  /** On the focus tags the classifier writes (its labels joined by ","), the setting is
      "advanced" exactly when advanced_disease is among them, and "resectable" exactly when
      resectable_disease is and advanced_disease is not. */
  lemma SettingMatchesFocus(study: map<string, Json>, studyType: string, text: string)
    requires Get(study, "focus_tags") == JStr(Join(ClinicalTrials.Classify(studyType, text).focus, ","))
    ensures var focus := ClinicalTrials.Classify(studyType, text).focus;
            (InferSetting(study) == Advanced <==> AdvancedTag in focus) &&
            (InferSetting(study) == Resectable <==> AdvancedTag !in focus && ResectableTag in focus)
  {
    var focus := ClinicalTrials.Classify(studyType, text).focus;
    FocusSettingSafe(studyType, text);
    JoinedLabelsContain(focus);
    assert TextOf(Get(study, "focus_tags")) == Join(focus, ",");
    SettingRule(study);
  }

  // ---------------------------------------------------------------------------
  // normalize_trial
  // ---------------------------------------------------------------------------

  /** normalize_trial copies the identifier, metadata, match reason and classification as
      given (it does not reclassify), parses only dict-shaped dates, and reads the setting and
      line of therapy off the focus tags and title. */
  lemma NormalizeTrialFields(study: map<string, Json>, strptime: string -> Option<CalendarDate>)
    requires Normalizable(study)
    ensures var n := NormalizeTrial(study, strptime);
            ("nct_id" in study ==> n.nctId == study["nct_id"]) && ("nct_id" !in study ==> n.nctId == JNull) &&
            n.title == Get(study, "title") &&
            n.therapeuticClass == Get(study, "therapeutic_class") &&
            n.focusTags == Get(study, "focus_tags") &&
            n.pdacMatchReason == Get(study, "pdac_match_reason") &&
            (!Get(study, "start_date").JObj? ==> n.startDate == Passed(Get(study, "start_date"))) &&
            (!Get(study, "primary_completion_date").JObj? ==>
               n.primaryCompletionDate == Passed(Get(study, "primary_completion_date"))) &&
            (n.startDate.Parsed? && n.startDate.date.Some? ==>
               strptime(study["start_date"].fields["date"].s) == n.startDate.date) &&
            n.setting in {Advanced, Resectable, Unspecified} &&
            n.lineOfTherapy in {"first_line", "second_line", "refractory", Unspecified}
  {
    SettingRule(study);
    LineOfTherapyRule(study);
  }

  /** The keys normalize_trial reads. */
  const ReadKeys: set<string> := {
    "nct_id", "title", "study_type", "study_design", "phase", "status", "sponsor",
    "pdac_match_reason", "therapeutic_class", "focus_tags", "start_date", "primary_completion_date"}

  /** Every other key of the study dict is ignored: two studies that agree on the keys
      normalize_trial reads normalize to the same record. */
  lemma NormalizeTrialReadsOnly(a: map<string, Json>, b: map<string, Json>, strptime: string -> Option<CalendarDate>)
    requires Normalizable(a)
    requires forall key :: key in ReadKeys ==> Get(a, key) == Get(b, key)
    ensures Normalizable(b)
    ensures NormalizeTrial(a, strptime) == NormalizeTrial(b, strptime)
  {
    assert "focus_tags" in ReadKeys && "title" in ReadKeys;
    assert "nct_id" in ReadKeys && "study_type" in ReadKeys && "study_design" in ReadKeys;
    assert "phase" in ReadKeys && "status" in ReadKeys && "sponsor" in ReadKeys;
    assert "pdac_match_reason" in ReadKeys && "therapeutic_class" in ReadKeys;
    assert "start_date" in ReadKeys && "primary_completion_date" in ReadKeys;
  }
}
