/** Value rules of the ingestion script: NA normalisation, the case-insensitive union of
    delimited lists, date keys, and the field-by-field reconciliation of a CTIS row into
    the ClinicalTrials.gov row it names. */
module IngestMerge {
  import opened Text
  import opened Collections
  import opened Records

  // ---------------------------------------------------------------------------
  // as_na / is_na
  // ---------------------------------------------------------------------------

  /** The literal "NA" is not blank and folds to "na". */
  lemma NaLiteral()
    ensures Trim("NA") == "NA" && !IsBlank("NA") && Lower("NA") == "na"
  {
    TrimOfTrimmed("NA");
  }

  /** The stored "NA" reads back as NA. */
  lemma NaIsNa()
    ensures IsNa(Some("NA"))
  {
    NaLiteral();
  }

  /** The stored "yes" reads back as yes. */
  lemma YesIsYes()
    ensures Folded(Some("yes")) == "yes"
  {
    var t := OrEmpty(Some("yes"));
    TrimOfTrimmed(t);
    LowerOfLowercase(t);
  }

  /** as_na: None and blank text become "NA"; any other text is kept as it is. */
  function AsNa(v: Cell): (r: string)
    ensures r == "NA" <==> v.None? || IsBlank(v.value) || v.value == "NA"
    ensures r != "NA" ==> v == Some(r)
  {
    if v.None? || IsBlank(v.value) then "NA" else v.value
  }

  /** as_na never yields blank text. */
  lemma AsNaNotBlank(v: Cell)
    ensures !IsBlank(AsNa(v))
  {
    if v.None? || IsBlank(v.value) {
      NotBlankIfFirstNotSpace("NA");
    }
  }

  /** Text that is not blank passes through as_na unchanged. */
  lemma AsNaOfText(t: string)
    requires !IsBlank(t)
    ensures AsNa(Some(t)) == t
  {
  }

  /** is_na: None, or text that strips to "" or to "na" in any case. */
  predicate IsNa(v: Cell) {
    v.None? || Lower(Trim(v.value)) in {"", "na"}
  }

  /** Storing as_na of a value keeps it NA exactly when it was NA. */
  lemma AsNaKeepsNa(v: Cell)
    ensures IsNa(Some(AsNa(v))) <==> IsNa(v)
  {
    NaIsNa();
  }

  // ---------------------------------------------------------------------------
  // _split_values / _merge_values
  // ---------------------------------------------------------------------------

  /** A piece survives the split filter when it strips to something other than "na". */
  predicate Kept(x: string) {
    !IsBlank(x) && Lower(Trim(x)) != "na"
  }

  /** [x.strip() for x in pieces if x and x.strip() and x.strip().lower() != "na"] */
  function KeepItems(pieces: seq<string>): (r: seq<string>)
    ensures |r| <= |pieces|
    ensures forall y :: y in r ==> y != "" && Trim(y) == y && Lower(y) != "na"
    decreases |pieces|
  {
    if pieces == [] then []
    else
      TrimIdempotent(pieces[0]);
      (if Kept(pieces[0]) then [Trim(pieces[0])] else []) + KeepItems(pieces[1..])
  }

  /** The kept items are exactly the stripped forms of the pieces that pass the filter. */
  lemma {:induction false} KeepItemsMembers(pieces: seq<string>)
    ensures forall y :: y in KeepItems(pieces) <==> exists x :: x in pieces && Kept(x) && Trim(x) == y
    decreases |pieces|
  {
    if pieces != [] {
      KeepItemsMembers(pieces[1..]);
      var head := if Kept(pieces[0]) then [Trim(pieces[0])] else [];
      assert KeepItems(pieces) == head + KeepItems(pieces[1..]);
      forall y | y in KeepItems(pieces) ensures exists x :: x in pieces && Kept(x) && Trim(x) == y {
        if y in head {
          assert pieces[0] in pieces;
        } else {
          assert y in KeepItems(pieces[1..]);
          var x :| x in pieces[1..] && Kept(x) && Trim(x) == y;
          assert x in pieces;
        }
      }
      forall y | exists x :: x in pieces && Kept(x) && Trim(x) == y ensures y in KeepItems(pieces) {
        var x :| x in pieces && Kept(x) && Trim(x) == y;
        if x == pieces[0] {
          assert y in head;
        } else {
          assert x in pieces[1..];
          assert y in KeepItems(pieces[1..]);
        }
      }
    }
  }

  /** _split_values: no items for an NA cell, otherwise the kept pieces of str.split(sep). */
  function SplitValues(v: Cell, sep: string): (r: seq<string>)
    requires |sep| > 0
    ensures IsNa(v) ==> r == []
    ensures forall y :: y in r ==> y != "" && Trim(y) == y && Lower(y) != "na"
  {
    if IsNa(v) then [] else KeepItems(Split(v.value, sep))
  }

  /** The items _merge_values joins: first spelling of every case-insensitive value of
      `a` then `b`. */
  function MergedItems(a: Cell, b: Cell, sep: string): seq<string>
    requires |sep| > 0
  {
    DedupBy(SplitValues(a, sep) + SplitValues(b, sep), Lower)
  }

  /** The seen set of the loop: the lower-cased keys of the kept items. */
  function LowerKeys(out: seq<string>): set<string> {
    set y | y in out :: Lower(y)
  }

  /** Keeping one more item adds its key to the seen set; the set holds exactly the keys
      present in the output. */
  lemma LowerKeysSnoc(out: seq<string>, x: string)
    ensures LowerKeys(out + [x]) == LowerKeys(out) + {Lower(x)}
    ensures forall k :: k in LowerKeys(out) <==> HasKey(out, k, Lower)
  {
    forall k | HasKey(out, k, Lower) ensures k in LowerKeys(out) {
      var y :| y in out && Lower(y) == k;
    }
  }

  /** _merge_values as the source writes it: a loop with a seen set of lower-cased keys. */
  method MergeValues(a: Cell, b: Cell, sep: string) returns (r: string)
    requires |sep| > 0
    ensures r == Join(MergedItems(a, b, sep), sep)
  {
    var raws := SplitValues(a, sep) + SplitValues(b, sep);
    var out: seq<string> := [];
    var seen: set<string> := {};
    var i := 0;
    while i < |raws|
      invariant 0 <= i <= |raws|
      invariant out == DedupBy(raws[..i], Lower)
      invariant seen == LowerKeys(out)
    {
      var key := Lower(raws[i]);
      DedupByStep(raws, i, Lower);
      LowerKeysSnoc(out, raws[i]);
      if key !in seen {
        seen := seen + {key};
        out := out + [raws[i]];
      }
      i := i + 1;
    }
    assert raws[..i] == raws;
    r := Join(out, sep);
  }

  /** The union keeps one spelling per case-insensitive value, each drawn from the inputs,
      stripped, never blank and never "na"; every input item is represented; the spelling
      kept is the first one seen, and the items of `a` come first. */
  lemma MergedItemsSpec(a: Cell, b: Cell, sep: string)
    requires |sep| > 0
    ensures KeyUnique(MergedItems(a, b, sep), Lower)
    ensures forall y :: y in MergedItems(a, b, sep) ==> y in SplitValues(a, sep) || y in SplitValues(b, sep)
    ensures forall y :: y in MergedItems(a, b, sep) ==> y != "" && Trim(y) == y && Lower(y) != "na"
    ensures forall y :: y in SplitValues(a, sep) + SplitValues(b, sep) ==> HasKey(MergedItems(a, b, sep), Lower(y), Lower)
    ensures MergedItems(a, b, sep) == FirstSeen(SplitValues(a, sep) + SplitValues(b, sep), Lower)
    ensures DedupBy(SplitValues(a, sep), Lower) <= MergedItems(a, b, sep)
  {
    var xs := SplitValues(a, sep) + SplitValues(b, sep);
    DedupByUnique(xs, Lower);
    DedupByCovers(xs, Lower);
    DedupByIsFirstSeen(xs, Lower);
    DedupByPrefix(SplitValues(a, sep), SplitValues(b, sep), Lower);
  }

  /** A join of two or more non-empty items is longer than two characters. */
  lemma JoinOfSeveralIsLong(items: seq<string>, sep: string)
    requires |items| >= 2 && |sep| > 0 && items[0] != "" && items[1] != ""
    ensures |Join(items, sep)| >= 3
  {
    JoinStartsWithFirst(items[1..], sep);
  }

  /** as_na over a merge result: "NA" exactly when no item survives, else the join. */
  lemma AsNaOfMerged(a: Cell, b: Cell, sep: string)
    requires |sep| > 0
    ensures AsNa(Some(Join(MergedItems(a, b, sep), sep)))
            == if MergedItems(a, b, sep) == [] then "NA" else Join(MergedItems(a, b, sep), sep)
  {
    var m := MergedItems(a, b, sep);
    if m != [] {
      MergedItemsSpec(a, b, sep);
      assert m[0] in m;
      JoinNotBlank(m, sep);
      AsNaOfText(Join(m, sep));
    }
  }

  /** The stored form of a merged list column. */
  function MergeCell(us: Cell, eu: Cell, sep: string): Cell
    requires |sep| > 0
  {
    Some(AsNa(Some(Join(MergedItems(us, eu, sep), sep))))
  }

  /** Merging in a value that splits into one clean item appends that item to the
      de-duplicated existing items, unless one of them already has its case-insensitive key;
      either way the item is represented. */
  lemma MergeAddsItem(us: Cell, item: string, sep: string)
    requires |sep| > 0 && Kept(item) && Trim(item) == item && !Contains(item, sep)
    ensures var existing := DedupBy(SplitValues(us, sep), Lower);
            MergedItems(us, Some(item), sep)
            == existing + (if HasKey(SplitValues(us, sep), Lower(item), Lower) then [] else [item])
    ensures HasKey(MergedItems(us, Some(item), sep), Lower(item), Lower)
  {
    SplitNoSeparator(item, sep);
    assert Split(item, sep) == [item];
    assert KeepItems([item]) == [item] + KeepItems([]);
    var all := SplitValues(us, sep) + [item];
    assert SplitValues(Some(item), sep) == [item];
    DedupBySnoc(SplitValues(us, sep), item, Lower);
    DedupByCovers(all, Lower);
    assert item in all;
  }

  // ---------------------------------------------------------------------------
  // _parse_date_key
  // ---------------------------------------------------------------------------

  /** The shape ^\d{4}(-\d{2}){0,2}$: YYYY, YYYY-MM or YYYY-MM-DD. */
  predicate DateShape(t: string) {
    (|t| == 4 || |t| == 7 || |t| == 10) &&
    forall i :: 0 <= i < |t| ==> if i == 4 || i == 7 then t[i] == '-' else IsDigit(t[i])
  }

  /** _parse_date_key: the stripped value when it has a date shape, otherwise "". */
  function ParseDateKey(v: Cell): (r: string)
    ensures r == "" || DateShape(r)
    ensures r != "" ==> !IsNa(v) && r == Trim(v.value)
  {
    if IsNa(v) then "" else if DateShape(Trim(v.value)) then Trim(v.value) else ""
  }

  /** A date key is recognised as itself: the parse accepts exactly the date shapes. */
  lemma ParseDateKeyOfKey(t: string)
    ensures ParseDateKey(Some(t)) == t <==> DateShape(t) || t == ""
  {
    if DateShape(t) {
      assert !IsSpace(t[0]) && !IsSpace(t[|t| - 1]);
      TrimOfTrimmed(t);
      assert |Lower(t)| >= 4;
    }
  }

  /** The later-date-wins rule: the EU key replaces the US value when it is valid and the
      US key is missing or strictly earlier. */
  function LaterDate(us: Cell, eu: Cell): (r: Cell)
    ensures r == us || r == Some(ParseDateKey(eu))
  {
    var u := ParseDateKey(us);
    var e := ParseDateKey(eu);
    if e != "" && (u == "" || LexLt(u, e)) then Some(e) else us
  }

  /** After the date rule the stored key is the later of the two valid keys. */
  lemma LaterDateIsMaximum(us: Cell, eu: Cell)
    ensures ParseDateKey(us) != "" ==> LexLe(ParseDateKey(us), ParseDateKey(LaterDate(us, eu)))
    ensures ParseDateKey(eu) != "" ==> LexLe(ParseDateKey(eu), ParseDateKey(LaterDate(us, eu)))
    ensures ParseDateKey(LaterDate(us, eu)) == "" <==> ParseDateKey(us) == "" && ParseDateKey(eu) == ""
  {
    var u := ParseDateKey(us);
    var e := ParseDateKey(eu);
    var r := LaterDate(us, eu);
    if r != us {
      ParseDateKeyOfKey(e);
      if u != "" {
        LexLeReflexive(e);
      }
      LexLeReflexive(e);
    } else {
      LexLeReflexive(u);
      if e != "" {
        LexLeTotal(u, e);
      }
    }
  }

  // ---------------------------------------------------------------------------
  // merge_ctis_overlaps: one record pair
  // ---------------------------------------------------------------------------

  /** Fill-if-missing: the EU value is taken only when the US value is NA and it is not. */
  function FillIfNa(us: Cell, eu: Cell): (r: Cell)
    ensures r == us || (IsNa(us) && !IsNa(eu) && r == eu)
    ensures IsNa(us) && !IsNa(eu) ==> r == eu
  {
    if IsNa(us) && !IsNa(eu) then eu else us
  }

  /** `(value or "").strip().lower()`. */
  function Folded(c: Cell): string {
    Lower(Trim(OrEmpty(c)))
  }

  /** Conditional replacement of a classification label: only placeholder labels give
      way, and only to a value that is not NA. */
  function ReplaceLabel(us: Cell, eu: Cell, placeholders: set<string>): (r: Cell)
    ensures r == us || (Folded(us) in placeholders && !IsNa(eu) && r == eu)
    ensures Folded(us) in placeholders && !IsNa(eu) ==> r == eu
  {
    if Folded(us) in placeholders && !IsNa(eu) then eu else us
  }

  const ClassPlaceholders: set<string> := {"", "na", "context_classified"}
  const ReasonPlaceholders: set<string> := {"", "na", "unknown_match"}
  const MergedSource := "clinicaltrials.gov+ctis"

  /** has_results as a logical OR: "yes" from the EU row wins, otherwise the US value stays. */
  function MergeHasResults(us: Cell, eu: Cell): (r: Cell)
    ensures Folded(eu) == "yes" ==> r == Some("yes")
    ensures Folded(eu) != "yes" ==> r == us
  {
    if Folded(eu) == "yes" then Some("yes") else us
  }

  /** The US row after folding the EU row (stored under `euId`) into it. */
  function MergeTrial(us: TrialRecord, eu: TrialRecord, euId: string): TrialRecord {
    us.(
      source := Some(MergedSource),
      secondaryId := MergeCell(us.secondaryId, Some(euId), ", "),
      trialLink := MergeCell(us.trialLink, eu.trialLink, " | "),
      sponsor := FillIfNa(us.sponsor, eu.sponsor),
      status := FillIfNa(us.status, eu.status),
      studyType := FillIfNa(us.studyType, eu.studyType),
      phase := FillIfNa(us.phase, eu.phase),
      studyDesign := FillIfNa(us.studyDesign, eu.studyDesign),
      interventionTypes := MergeCell(us.interventionTypes, eu.interventionTypes, ", "),
      focusTags := MergeCell(us.focusTags, eu.focusTags, ","),
      pubmedLinks := MergeCell(us.pubmedLinks, eu.pubmedLinks, " | "),
      hasResults := MergeHasResults(us.hasResults, eu.hasResults),
      resultsLastUpdate := LaterDate(us.resultsLastUpdate, eu.resultsLastUpdate),
      lastUpdateDate := LaterDate(us.lastUpdateDate, eu.lastUpdateDate),
      therapeuticClass := ReplaceLabel(us.therapeuticClass, eu.therapeuticClass, ClassPlaceholders),
      pdacMatchReason := ReplaceLabel(us.pdacMatchReason, eu.pdacMatchReason, ReasonPlaceholders))
  }

  /** The US details row after folding the EU details row into it. */
  function MergeDetails(us: TrialDetails, eu: TrialDetails): TrialDetails {
    us.(
      conditions := MergeCell(us.conditions, eu.conditions, " | "),
      interventions := MergeCell(us.interventions, eu.interventions, " | "),
      primaryOutcomes := MergeCell(us.primaryOutcomes, eu.primaryOutcomes, " | "),
      secondaryOutcomes := MergeCell(us.secondaryOutcomes, eu.secondaryOutcomes, " | "),
      locations := MergeCell(us.locations, eu.locations, " | "),
      inclusionCriteria := FillIfNa(us.inclusionCriteria, eu.inclusionCriteria),
      exclusionCriteria := FillIfNa(us.exclusionCriteria, eu.exclusionCriteria),
      briefSummary := FillIfNa(us.briefSummary, eu.briefSummary),
      detailedDescription := FillIfNa(us.detailedDescription, eu.detailedDescription))
  }

  /** A merge marks the US row as correlated with CTIS, keeps the EU id among its
      secondary ids, and leaves title, admission date and noise flags alone. */
  lemma MergeTrialMarks(us: TrialRecord, eu: TrialRecord, euId: string)
    ensures MergeTrial(us, eu, euId).source == Some(MergedSource)
    ensures Kept(euId) && Trim(euId) == euId && !Contains(euId, ", ") ==>
              HasKey(MergedItems(us.secondaryId, Some(euId), ", "), Lower(euId), Lower)
    ensures var r := MergeTrial(us, eu, euId);
            r.title == us.title && r.admissionDate == us.admissionDate && r.noiseFlags == us.noiseFlags
  {
    if Kept(euId) && Trim(euId) == euId && !Contains(euId, ", ") {
      MergeAddsItem(us.secondaryId, euId, ", ");
    }
  }

  /** has_results after a merge: "yes" when the EU row says yes, and a "yes" is never lost. */
  lemma MergeTrialResults(us: TrialRecord, eu: TrialRecord, euId: string)
    ensures Folded(eu.hasResults) == "yes" ==> MergeTrial(us, eu, euId).hasResults == Some("yes")
    ensures Folded(us.hasResults) == "yes" ==> Folded(MergeTrial(us, eu, euId).hasResults) == "yes"
  {
    var r := MergeTrial(us, eu, euId);
    assert r.hasResults == MergeHasResults(us.hasResults, eu.hasResults);
    YesIsYes();
  }

  /** Both date columns end with the later of the two valid date keys. */
  lemma MergeTrialDates(us: TrialRecord, eu: TrialRecord, euId: string)
    ensures var r := MergeTrial(us, eu, euId);
            (ParseDateKey(us.lastUpdateDate) != "" ==> LexLe(ParseDateKey(us.lastUpdateDate), ParseDateKey(r.lastUpdateDate))) &&
            (ParseDateKey(eu.lastUpdateDate) != "" ==> LexLe(ParseDateKey(eu.lastUpdateDate), ParseDateKey(r.lastUpdateDate)))
    ensures var r := MergeTrial(us, eu, euId);
            (ParseDateKey(us.resultsLastUpdate) != "" ==> LexLe(ParseDateKey(us.resultsLastUpdate), ParseDateKey(r.resultsLastUpdate))) &&
            (ParseDateKey(eu.resultsLastUpdate) != "" ==> LexLe(ParseDateKey(eu.resultsLastUpdate), ParseDateKey(r.resultsLastUpdate)))
  {
    var r := MergeTrial(us, eu, euId);
    assert r.lastUpdateDate == LaterDate(us.lastUpdateDate, eu.lastUpdateDate);
    assert r.resultsLastUpdate == LaterDate(us.resultsLastUpdate, eu.resultsLastUpdate);
    LaterDateIsMaximum(us.lastUpdateDate, eu.lastUpdateDate);
    LaterDateIsMaximum(us.resultsLastUpdate, eu.resultsLastUpdate);
  }

  /** Label fields: sponsor, status, study type, phase and design change only from NA to the
      non-NA EU value; therapeutic class and match reason change only from a placeholder. */
  lemma MergeTrialLabels(us: TrialRecord, eu: TrialRecord, euId: string)
    ensures var r := MergeTrial(us, eu, euId);
            (r.sponsor == us.sponsor || (IsNa(us.sponsor) && !IsNa(eu.sponsor) && r.sponsor == eu.sponsor)) &&
            (r.status == us.status || (IsNa(us.status) && !IsNa(eu.status) && r.status == eu.status)) &&
            (r.studyType == us.studyType || (IsNa(us.studyType) && !IsNa(eu.studyType) && r.studyType == eu.studyType)) &&
            (r.phase == us.phase || (IsNa(us.phase) && !IsNa(eu.phase) && r.phase == eu.phase)) &&
            (r.studyDesign == us.studyDesign || (IsNa(us.studyDesign) && !IsNa(eu.studyDesign) && r.studyDesign == eu.studyDesign))
    ensures var r := MergeTrial(us, eu, euId);
            (r.therapeuticClass == us.therapeuticClass ||
              (Folded(us.therapeuticClass) in ClassPlaceholders && !IsNa(eu.therapeuticClass)
               && r.therapeuticClass == eu.therapeuticClass)) &&
            (r.pdacMatchReason == us.pdacMatchReason ||
              (Folded(us.pdacMatchReason) in ReasonPlaceholders && !IsNa(eu.pdacMatchReason)
               && r.pdacMatchReason == eu.pdacMatchReason))
  {
  }
}
