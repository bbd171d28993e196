/** The normalisation helpers of the CTIS (EU Clinical Trials Information System) client:
    cleaning payload values, walking nested payloads, choosing the search terms, reading the
    trial phase and category, the PDAC pre-filter, PubMed links, the intervention columns
    and the has-results flag. */
module Ctis {
  import opened Text
  import opened Records
  import opened Collections
  import ClinicalTrials

  // ---------------------------------------------------------------------------
  // _clean and _join_non_empty
  // ---------------------------------------------------------------------------

  /** _clean: "" for None, otherwise str(value) stripped. */
  function Clean(v: Json): string {
    if v.JNull? then "" else Trim(PyStr(v))
  }

  /** A cleaned value is stripped, and a text value cleans to its stripped self. */
  lemma CleanStripped(v: Json)
    ensures Trim(Clean(v)) == Clean(v)
    ensures v.JStr? ==> Clean(v) == Trim(v.s)
  {
    if !v.JNull? {
      TrimIdempotent(PyStr(v));
    }
  }

  /** The _join_non_empty loop; a None entry contributes nothing, exactly like "". */
  method JoinNonEmptyLoop(values: seq<string>, sep: string) returns (r: string)
    ensures r == ClinicalTrials.JoinNonEmpty(values, sep)
  {
    var out: seq<string> := [];
    var i := 0;
    while i < |values|
      invariant 0 <= i <= |values|
      invariant out == NonBlankTrimmed(values[..i])
    {
      assert values[..i + 1][..i] == values[..i];
      var text := Trim(values[i]);
      if text != "" {
        out := out + [text];
      }
      i := i + 1;
    }
    assert values[..i] == values;
    r := Join(out, sep);
  }

  // ---------------------------------------------------------------------------
  // _nested
  // ---------------------------------------------------------------------------

  /** One step of a payload path: a dict key or a list position. */
  datatype PathKey = Key(name: string) | Index(pos: int)

  /** _nested: walk `path` from `data`. A dict step uses `get(key, default)`; a list step
      out of range, or a step into anything else, gives the default; a None reached by a
      step gives the default. With an empty path the data comes back as it is. */
  function Nested(data: Json, path: seq<PathKey>, default: Json): Json
    decreases |path|
  {
    if path == [] then data
    else if data.JObj? then
      var next := if path[0].Key? then GetOr(data.fields, path[0].name, default) else default;
      if next.JNull? then default else Nested(next, path[1..], default)
    else if data.JList? && path[0].Index? then
      if path[0].pos < 0 || path[0].pos >= |data.items| then default
      else if data.items[path[0].pos].JNull? then default
      else Nested(data.items[path[0].pos], path[1..], default)
    else default
  }

  /** The cursor loop of _nested. */
  method WalkNested(data: Json, path: seq<PathKey>, default: Json) returns (r: Json)
    ensures r == Nested(data, path, default)
  {
    var cur := data;
    var i := 0;
    while i < |path|
      invariant 0 <= i <= |path|
      invariant Nested(cur, path[i..], default) == Nested(data, path, default)
    {
      assert path[i..][1..] == path[i + 1..];
      var key := path[i];
      if cur.JObj? {
        cur := if key.Key? then GetOr(cur.fields, key.name, default) else default;
      } else if cur.JList? && key.Index? {
        if key.pos < 0 || key.pos >= |cur.items| {
          return default;
        }
        cur := cur.items[key.pos];
      } else {
        return default;
      }
      if cur.JNull? {
        return default;
      }
      i := i + 1;
    }
    return cur;
  }

  /** The value at `path` when every step exists, with no default involved. */
  function Lookup(data: Json, path: seq<PathKey>): Option<Json>
    decreases |path|
  {
    if path == [] then Some(data)
    else if data.JObj? && path[0].Key? && path[0].name in data.fields then
      Lookup(data.fields[path[0].name], path[1..])
    else if data.JList? && path[0].Index? && 0 <= path[0].pos < |data.items| then
      Lookup(data.items[path[0].pos], path[1..])
    else None
  }

  /** A default that leads nowhere: not a non-empty dict or list. */
  predicate Inert(d: Json) {
    !(d.JObj? && d.fields != map[]) && !(d.JList? && d.items != [])
  }

  /** Walking on from an inert default stays at the default. */
  lemma {:induction false} NestedFromDefault(path: seq<PathKey>, default: Json)
    requires Inert(default)
    ensures Nested(default, path, default) == default
    decreases |path|
  {
    if path != [] {
      if default.JObj? {
        if path[0].Key? {
          assert GetOr(default.fields, path[0].name, default) == default;
        }
        NestedFromDefault(path[1..], default);
      }
    }
  }

  /** With an inert default (the "" and {} the client passes), _nested is a plain lookup:
      the value found at the path, or the default when a step is missing or a step reaches
      None; an empty path gives the data itself, None included. */
  lemma {:induction false} NestedIsLookup(data: Json, path: seq<PathKey>, default: Json)
    requires Inert(default)
    ensures Nested(data, path, default) ==
            (match Lookup(data, path)
             case Some(v) => if v.JNull? && path != [] then default else v
             case None => default)
    decreases |path|
  {
    if path != [] {
      if data.JObj? {
        if path[0].Key? && path[0].name in data.fields {
          NestedIsLookup(data.fields[path[0].name], path[1..], default);
        } else {
          NestedFromDefault(path[1..], default);
        }
      } else if data.JList? && path[0].Index? && 0 <= path[0].pos < |data.items| {
        NestedIsLookup(data.items[path[0].pos], path[1..], default);
      }
    }
  }

  // ---------------------------------------------------------------------------
  // _resolve_query_terms
  // ---------------------------------------------------------------------------

  const DefaultQueryTerms: seq<string> := [
    "pancreatic",
    "pancreas",
    "pancreatic cancer",
    "pdac",
    "pancreatic adenocarcinoma",
    "ductal adenocarcinoma",
    "paad",
    "pancreatic ductal adenocarcinoma"]

  /** _resolve_query_terms: the explicit terms (cleaned, de-duplicated) when any is
      non-blank, else the medical condition, else the default list. A missing list or
      condition is passed as [] or "". */
  function ResolveQueryTerms(queryTerms: seq<string>, medicalCondition: string): seq<string> {
    var terms := Uniqued(NonBlankTrimmed(queryTerms));
    if terms != [] then terms
    else if Trim(medicalCondition) != "" then [Trim(medicalCondition)]
    else DefaultQueryTerms
  }

  /** Every search term is non-blank and stripped. */
  predicate WellFormedTerms(terms: seq<string>) {
    forall k :: 0 <= k < |terms| ==> terms[k] != "" && Trim(terms[k]) == terms[k]
  }

  lemma DefaultTermsWellFormed()
    ensures WellFormedTerms(DefaultQueryTerms)
  {
    var d := DefaultQueryTerms;
    forall k | 0 <= k < |d| ensures d[k] != "" && Trim(d[k]) == d[k] {
      assert d[k][0] == 'p' || d[k][0] == 'd';
      assert d[k][|d[k]| - 1] in "csrad";
      TrimOfTrimmed(d[k]);
    }
  }

  lemma DefaultTermsDistinct()
    ensures KeyUnique(DefaultQueryTerms, Same)
  {
    var d := DefaultQueryTerms;
    forall i, j | 0 <= i < j < |d| ensures d[i] != d[j] {
      if |d[i]| == |d[j]| {
        assert d[i][1] != d[j][1];
      }
    }
  }

  /** The search always runs over at least one term; the terms are non-blank, stripped and
      distinct; explicit terms win and each non-blank one is searched, stripped. */
  lemma ResolvedTerms(queryTerms: seq<string>, medicalCondition: string)
    ensures var terms := ResolveQueryTerms(queryTerms, medicalCondition);
            terms != [] && WellFormedTerms(terms) && KeyUnique(terms, Same)
    ensures (exists k :: 0 <= k < |queryTerms| && !IsBlank(queryTerms[k])) ==>
              forall k :: 0 <= k < |queryTerms| && !IsBlank(queryTerms[k]) ==>
                Trim(queryTerms[k]) in ResolveQueryTerms(queryTerms, medicalCondition)
  {
    var cleaned := NonBlankTrimmed(queryTerms);
    var terms := Uniqued(cleaned);
    NonBlankTrimmedMembers(queryTerms);
    UniquedSpec(cleaned);
    DedupByUnique(NonBlankTrimmed(cleaned), Same);
    forall k | 0 <= k < |terms| ensures terms[k] != "" && Trim(terms[k]) == terms[k] {
      assert terms[k] in terms;
    }
    if exists k :: 0 <= k < |queryTerms| && !IsBlank(queryTerms[k]) {
      var k :| 0 <= k < |queryTerms| && !IsBlank(queryTerms[k]);
      forall j | 0 <= j < |queryTerms| && !IsBlank(queryTerms[j])
        ensures Trim(queryTerms[j]) in terms
      {
        assert Trim(queryTerms[j]) in cleaned;
        TrimIdempotent(queryTerms[j]);
        assert TrimsTo(cleaned, Trim(queryTerms[j]));
      }
      assert Trim(queryTerms[k]) in terms;
    }
    if terms == [] && Trim(medicalCondition) != "" {
      TrimIdempotent(medicalCondition);
    }
    DefaultTermsWellFormed();
    DefaultTermsDistinct();
  }

  /** The cleaned, de-duplicated explicit terms are exactly the stripped non-blank ones. */
  lemma ExplicitTermsMembers(queryTerms: seq<string>)
    ensures forall x :: x in Uniqued(NonBlankTrimmed(queryTerms)) <==>
              exists k :: 0 <= k < |queryTerms| && !IsBlank(queryTerms[k]) && Trim(queryTerms[k]) == x
  {
    var cleaned := NonBlankTrimmed(queryTerms);
    NonBlankTrimmedMembers(queryTerms);
    UniquedSpec(cleaned);
    forall x | x in Uniqued(cleaned)
      ensures exists k :: 0 <= k < |queryTerms| && !IsBlank(queryTerms[k]) && Trim(queryTerms[k]) == x
    {
      var y :| y in cleaned && Trim(y) == x;
      var v :| v in queryTerms && Trim(v) == y;
      TrimIdempotent(v);
      var k :| 0 <= k < |queryTerms| && queryTerms[k] == v;
    }
    forall k | 0 <= k < |queryTerms| && !IsBlank(queryTerms[k])
      ensures Trim(queryTerms[k]) in Uniqued(cleaned)
    {
      var x := Trim(queryTerms[k]);
      assert x in cleaned;
      TrimIdempotent(queryTerms[k]);
      assert TrimsTo(cleaned, x);
    }
  }

  /** When some explicit term is non-blank, the search runs over exactly the stripped
      non-blank explicit terms; the condition and the defaults play no part. */
  lemma ResolvedExplicit(queryTerms: seq<string>, medicalCondition: string)
    requires exists k :: 0 <= k < |queryTerms| && !IsBlank(queryTerms[k])
    ensures forall x :: x in ResolveQueryTerms(queryTerms, medicalCondition) <==>
              exists k :: 0 <= k < |queryTerms| && !IsBlank(queryTerms[k]) && Trim(queryTerms[k]) == x
  {
    ExplicitTermsMembers(queryTerms);
    var k :| 0 <= k < |queryTerms| && !IsBlank(queryTerms[k]);
    assert Trim(queryTerms[k]) in Uniqued(NonBlankTrimmed(queryTerms));
  }

  /** With no non-blank explicit term, the stripped condition is the one term when it is
      non-blank, and the default list otherwise. */
  lemma ResolvedFallback(queryTerms: seq<string>, medicalCondition: string)
    requires forall k :: 0 <= k < |queryTerms| ==> IsBlank(queryTerms[k])
    ensures Trim(medicalCondition) != "" ==> ResolveQueryTerms(queryTerms, medicalCondition) == [Trim(medicalCondition)]
    ensures Trim(medicalCondition) == "" ==> ResolveQueryTerms(queryTerms, medicalCondition) == DefaultQueryTerms
  {
    ExplicitTermsMembers(queryTerms);
    NoMemberEmpty(Uniqued(NonBlankTrimmed(queryTerms)));
  }

  /** A list with no member is empty. */
  lemma NoMemberEmpty(xs: seq<string>)
    ensures (forall x :: x !in xs) ==> xs == []
  {
    if xs != [] {
      assert xs[0] in xs;
    }
  }

  /** The two documented examples: no arguments give the default list, and repeated
      explicit terms are searched once each, in first-seen order. */
  lemma ResolveExamples()
    ensures ResolveQueryTerms([], "") == DefaultQueryTerms
    ensures ResolveQueryTerms(["pancreatic", "pdac", "pancreatic"], "") == ["pancreatic", "pdac"]
  {
    var q := ["pancreatic", "pdac", "pancreatic"];
    TrimOfTrimmed("pancreatic");
    TrimOfTrimmed("pdac");
    assert q[..2] == ["pancreatic", "pdac"] && q[..1] == ["pancreatic"] && q[..0] == [];
    assert NonBlankTrimmed(q[..1]) == ["pancreatic"];
    assert NonBlankTrimmed(q[..2]) == ["pancreatic", "pdac"];
    assert NonBlankTrimmed(q) == q;
    var d := ["pancreatic", "pdac"];
    assert q[..2] == d;
    assert DedupBy(q[..1], Same) == ["pancreatic"];
    assert DedupBy(q[..2], Same) == d;
    assert HasKey(d, Same("pancreatic"), Same) by {
      assert d[0] == "pancreatic";
    }
    assert DedupBy(q, Same) == d;
  }

  // ---------------------------------------------------------------------------
  // _extract_additional_focus_tags
  // ---------------------------------------------------------------------------

  const CtisFocusRules: ClinicalTrials.KeywordRules := [
    ("mixed_solid_tumor", [
      "solid tumor", "solid tumours", "pan-tumor", "pan tumor", "pan-tumour", "pan tumour",
      "basket trial"]),
    ("neuroendocrine_signal", [
      "neuroendocrine", "gep-net", "gastro-entero-pancreatic", "gastro entero pancreatic",
      "pnet"]),
    ("hepatobiliary_signal", ["hepatocellular", "cholangio", "hepatobiliary", "liver cancer"])]

  function AdditionalFocusTags(text: string): seq<string> {
    ClinicalTrials.Matched(Lower(Trim(text)), CtisFocusRules)
  }

  /** _extract_additional_focus_tags runs the focus-tag loop over the CTIS table. */
  method ExtractAdditionalFocusTags(text: string) returns (tags: seq<string>)
    ensures tags == AdditionalFocusTags(text)
  {
    tags := ClinicalTrials.MatchTags(Lower(Trim(text)), CtisFocusRules);
  }

  /** A tag is reported exactly when one of its terms occurs in the lower-cased text, each
      tag at most once. */
  lemma AdditionalFocusTagsSpec(text: string)
    ensures forall tag :: tag in AdditionalFocusTags(text) <==>
              exists i :: 0 <= i < |CtisFocusRules| && CtisFocusRules[i].0 == tag &&
                          AnyIn(Lower(Trim(text)), CtisFocusRules[i].1)
    ensures KeyUnique(AdditionalFocusTags(text), Same)
  {
    ClinicalTrials.MatchedMembers(Lower(Trim(text)), CtisFocusRules);
    assert ClinicalTrials.DistinctLabels(CtisFocusRules);
    ClinicalTrials.MatchedDistinct(Lower(Trim(text)), CtisFocusRules);
  }

  // ---------------------------------------------------------------------------
  // normalize_ctis_phase
  // ---------------------------------------------------------------------------

  /** Characters matched by the regex class \w (ASCII part). */
  predicate IsWordChar(c: char) {
    'a' <= c <= 'z' || 'A' <= c <= 'Z' || '0' <= c <= '9' || c == '_'
  }

  /** The pattern `\bphase\s*<numeral>\b` matches at position i of t. The numerals all
      begin with a letter, so the greedy `\s*` never needs to give back white space. */
  predicate PhaseAt(t: string, i: nat, numeral: string) {
    i + 5 <= |t| && t[i..i + 5] == "phase" && (i == 0 || !IsWordChar(t[i - 1])) &&
    var j := SkipSpaces(t, i + 5);
    j + |numeral| <= |t| && t[j..j + |numeral|] == numeral &&
    (j + |numeral| == |t| || !IsWordChar(t[j + |numeral|]))
  }

  /** re.search of the phase pattern. */
  predicate HasPhase(t: string, numeral: string) {
    exists i: nat :: i < |t| && PhaseAt(t, i, numeral)
  }

  /** The scan re.search performs: try each start position in turn. */
  method SearchPhase(t: string, numeral: string) returns (found: bool)
    ensures found == HasPhase(t, numeral)
  {
    var i := 0;
    while i < |t|
      invariant 0 <= i <= |t|
      invariant forall k: nat :: k < i ==> !PhaseAt(t, k, numeral)
    {
      if PhaseAt(t, i, numeral) {
        return true;
      }
      i := i + 1;
    }
    return false;
  }

  /** At one position at most one of the four numerals matches: "phase iii" is not also
      read as phase I or phase II, and "phase iv" not as phase I. */
  lemma PhaseNumeralsExclusive(t: string, i: nat)
    ensures PhaseAt(t, i, "iv") ==> !PhaseAt(t, i, "iii") && !PhaseAt(t, i, "ii") && !PhaseAt(t, i, "i")
    ensures PhaseAt(t, i, "iii") ==> !PhaseAt(t, i, "ii") && !PhaseAt(t, i, "i")
    ensures PhaseAt(t, i, "ii") ==> !PhaseAt(t, i, "i")
  {
    if i + 5 <= |t| {
      var j := SkipSpaces(t, i + 5);
      assert IsWordChar('i') && IsWordChar('v');
      if PhaseAt(t, i, "iv") {
        NumeralAt(t, i, "iv");
        assert t[j + 1] == 'v';
      }
      if PhaseAt(t, i, "iii") {
        NumeralAt(t, i, "iii");
        assert t[j + 1] == 'i' && t[j + 2] == 'i';
      }
      if PhaseAt(t, i, "ii") {
        NumeralAt(t, i, "ii");
        assert t[j + 1] == 'i';
      }
    }
  }

  /** Where the pattern matches, the numeral's letters follow the white space. */
  lemma NumeralAt(t: string, i: nat, numeral: string)
    requires PhaseAt(t, i, numeral)
    ensures var j := SkipSpaces(t, i + 5);
            j + |numeral| <= |t| && forall k :: 0 <= k < |numeral| ==> t[j + k] == numeral[k]
  {
    var j := SkipSpaces(t, i + 5);
    forall k | 0 <= k < |numeral| ensures t[j + k] == numeral[k] {
      assert t[j..j + |numeral|][k] == t[j + k];
    }
  }

  /** The pattern table, tried from phase IV down. */
  const PhaseTable: seq<(string, string)> :=
    [("iv", "PHASE4"), ("iii", "PHASE3"), ("ii", "PHASE2"), ("i", "PHASE1")]

  /** The `ordered` list the detection loop builds. */
  function Detected(t: string, table: seq<(string, string)>): seq<string>
    decreases |table|
  {
    if table == [] then []
    else
      var acc := Detected(t, table[..|table| - 1]);
      var entry := table[|table| - 1];
      if HasPhase(t, entry.0) && entry.1 !in acc then acc + [entry.1] else acc
  }

  lemma {:induction false} DetectedMembers(t: string, table: seq<(string, string)>)
    ensures forall n :: n in Detected(t, table) <==>
              exists k :: 0 <= k < |table| && table[k].1 == n && HasPhase(t, table[k].0)
    decreases |table|
  {
    if table != [] {
      var init := table[..|table| - 1];
      DetectedMembers(t, init);
      forall n | exists k :: 0 <= k < |table| && table[k].1 == n && HasPhase(t, table[k].0)
        ensures n in Detected(t, table)
      {
        var k :| 0 <= k < |table| && table[k].1 == n && HasPhase(t, table[k].0);
        if k < |table| - 1 {
          assert init[k] == table[k];
        }
      }
      forall n | n in Detected(t, init)
        ensures exists k :: 0 <= k < |table| && table[k].1 == n && HasPhase(t, table[k].0)
      {
        var k :| 0 <= k < |init| && init[k].1 == n && HasPhase(t, init[k].0);
        assert table[k] == init[k];
      }
    }
  }

  /** sorted(ordered, key=rank) for a list of distinct tiers: the tiers it holds, in rank
      order. */
  function ByRank(ordered: seq<string>): seq<string> {
    (if "PHASE1" in ordered then ["PHASE1"] else []) +
    (if "PHASE2" in ordered then ["PHASE2"] else []) +
    (if "PHASE3" in ordered then ["PHASE3"] else []) +
    (if "PHASE4" in ordered then ["PHASE4"] else [])
  }

  /** The tiers named in the text, lowest first, each once. */
  function PhaseTiers(t: string): seq<string> {
    (if HasPhase(t, "i") then ["PHASE1"] else []) +
    (if HasPhase(t, "ii") then ["PHASE2"] else []) +
    (if HasPhase(t, "iii") then ["PHASE3"] else []) +
    (if HasPhase(t, "iv") then ["PHASE4"] else [])
  }

  /** Detecting from phase IV down and sorting by rank gives the ascending tier list. */
  lemma DetectedByRank(t: string)
    ensures ByRank(Detected(t, PhaseTable)) == PhaseTiers(t)
    ensures Detected(t, PhaseTable) != [] ==> PhaseTiers(t) != []
  {
    DetectedPhases(t);
    var d := Detected(t, PhaseTable);
    if d != [] {
      DetectedMembers(t, PhaseTable);
      assert d[0] in d;
      var k :| 0 <= k < |PhaseTable| && PhaseTable[k].1 == d[0] && HasPhase(t, PhaseTable[k].0);
      assert k == 0 || k == 1 || k == 2 || k == 3;
    }
  }

  /** A tier is detected exactly when its numeral is named. */
  lemma DetectedPhases(t: string)
    ensures var d := Detected(t, PhaseTable);
            ("PHASE1" in d <==> HasPhase(t, "i")) && ("PHASE2" in d <==> HasPhase(t, "ii")) &&
            ("PHASE3" in d <==> HasPhase(t, "iii")) && ("PHASE4" in d <==> HasPhase(t, "iv"))
  {
    DetectedMembers(t, PhaseTable);
    var d := Detected(t, PhaseTable);
    assert "PHASE1" in d <==> HasPhase(t, "i") by {
      assert PhaseTable[3] == ("i", "PHASE1");
      assert forall k :: 0 <= k < 3 ==> PhaseTable[k].1 != "PHASE1";
    }
    assert "PHASE2" in d <==> HasPhase(t, "ii") by {
      assert PhaseTable[2] == ("ii", "PHASE2");
      assert forall k :: 0 <= k < 4 && k != 2 ==> PhaseTable[k].1 != "PHASE2";
    }
    assert "PHASE3" in d <==> HasPhase(t, "iii") by {
      assert PhaseTable[1] == ("iii", "PHASE3");
      assert forall k :: 0 <= k < 4 && k != 1 ==> PhaseTable[k].1 != "PHASE3";
    }
    assert "PHASE4" in d <==> HasPhase(t, "iv") by {
      assert PhaseTable[0] == ("iv", "PHASE4");
      assert forall k :: 0 < k < 4 ==> PhaseTable[k].1 != "PHASE4";
    }
  }


  /** What normalize_ctis_phase returns: "NA" for a blank value, the tiers the text names
      joined by "/" in ascending order, or else the value upper-cased with "_" for spaces. */
  function CtisPhase(value: Json): string {
    var text := Lower(Clean(value));
    if text == "" then "NA"
    else if PhaseTiers(text) != [] then Join(PhaseTiers(text), "/")
    else SpacesToUnderscores(Upper(Clean(value)))
  }

  /** normalize_ctis_phase: detect the tiers from phase IV down, then sort them by rank. */
  method NormalizeCtisPhase(value: Json) returns (r: string)
    ensures r == CtisPhase(value)
  {
    var text := Lower(Clean(value));
    if text == "" {
      return "NA";
    }
    var ordered := DetectTiers(text);
    DetectedByRank(text);
    if ordered != [] {
      ordered := ByRank(ordered);
      return Join(ordered, "/");
    }
    return SpacesToUnderscores(Upper(Clean(value)));
  }

  /** The detection loop of normalize_ctis_phase. */
  method DetectTiers(text: string) returns (ordered: seq<string>)
    ensures ordered == Detected(text, PhaseTable)
  {
    ordered := [];
    var i := 0;
    while i < |PhaseTable|
      invariant 0 <= i <= |PhaseTable|
      invariant ordered == Detected(text, PhaseTable[..i])
    {
      assert PhaseTable[..i + 1][..i] == PhaseTable[..i];
      var found := SearchPhase(text, PhaseTable[i].0);
      if found && PhaseTable[i].1 !in ordered {
        ordered := ordered + [PhaseTable[i].1];
      }
      i := i + 1;
    }
    assert PhaseTable[..i] == PhaseTable;
  }

  /** The tiers are drawn from PHASE1..PHASE4. */
  lemma PhaseTiersKnown(t: string)
    ensures forall k :: 0 <= k < |PhaseTiers(t)| ==>
              PhaseTiers(t)[k] in ["PHASE1", "PHASE2", "PHASE3", "PHASE4"] && PhaseTiers(t)[k] != ""
  {
  }

  /** The phase column is never empty; a value naming a tier yields only tiers. */
  lemma CtisPhaseNotEmpty(value: Json)
    ensures CtisPhase(value) != ""
    ensures var tiers := PhaseTiers(Lower(Clean(value)));
            Lower(Clean(value)) != "" && tiers != [] ==>
              CtisPhase(value) == Join(tiers, "/") &&
              forall k :: 0 <= k < |tiers| ==> tiers[k] in ["PHASE1", "PHASE2", "PHASE3", "PHASE4"]
  {
    var text := Lower(Clean(value));
    var tiers := PhaseTiers(text);
    PhaseTiersKnown(text);
    if text != "" && tiers != [] {
      JoinEmptyIff(tiers, "/");
    } else if text != "" {
      assert |SpacesToUnderscores(Upper(Clean(value)))| == |text|;
    }
  }

  // ---------------------------------------------------------------------------
  // _map_ctis_study_type
  // ---------------------------------------------------------------------------

  /** _map_ctis_study_type over the chosen phase text and the payload's trial category. */
  function MapCtisStudyType(phaseText: string, trialCategory: Json): string {
    var merged := Lower(Trim(phaseText) + " " + Clean(trialCategory));
    if Contains(merged, "observational") || Contains(merged, "non-interventional") then
      "OBSERVATIONAL"
    else if merged != "" then "INTERVENTIONAL"
    else "UNKNOWN"
  }

  /** The merged text always holds the separating space, so the UNKNOWN branch is never
      taken; OBSERVATIONAL is chosen exactly when either part names it. */
  lemma StudyTypeOfParts(phaseText: string, trialCategory: Json)
    ensures MapCtisStudyType(phaseText, trialCategory) != "UNKNOWN"
    ensures var a := Lower(Trim(phaseText));
            var b := Lower(Clean(trialCategory));
            MapCtisStudyType(phaseText, trialCategory) == "OBSERVATIONAL" <==>
              Contains(a, "observational") || Contains(b, "observational") ||
              Contains(a, "non-interventional") || Contains(b, "non-interventional")
  {
    var a := Trim(phaseText);
    var b := Clean(trialCategory);
    LowerAppend(a + " ", b);
    LowerAppend(a, " ");
    assert Lower(a + " " + b) == Lower(a) + [' '] + Lower(b);
    ContainsAcrossSeparator(Lower(a), ' ', Lower(b), "observational");
    ContainsAcrossSeparator(Lower(a), ' ', Lower(b), "non-interventional");
  }

  // ---------------------------------------------------------------------------
  // _is_pdac_candidate
  // ---------------------------------------------------------------------------

  const CancerTokens: seq<string> :=
    ["cancer", "adenocarcinoma", "carcinoma", "neoplasm", "tumor", "tumour"]

  /** _is_pdac_candidate: the PDAC title filter, or a pancreas word together with a cancer
      word; the pancreatitis guard is written as in the client. */
  function IsPdacCandidate(text: string): bool {
    var lower := Lower(Trim(text));
    if lower == "" then false
    else if ClinicalTrials.IsPdacCore(lower) then true
    else
      var hasPancreas := Contains(lower, "pancrea") || Contains(lower, "pdac");
      var hasCancerSignal := AnyIn(lower, CancerTokens);
      if !(hasPancreas && hasCancerSignal) then false
      else if Contains(lower, "pancreatitis") && !hasCancerSignal then false
      else true
  }

  /** The pancreatitis guard can never fire (it needs no cancer word, which was already
      required): a text passes exactly on the title filter or on pancreas + cancer words. */
  lemma CandidateIff(text: string)
    ensures var lower := Lower(Trim(text));
            IsPdacCandidate(text) <==>
              lower != "" &&
              (ClinicalTrials.IsPdacCore(lower) ||
               ((Contains(lower, "pancrea") || Contains(lower, "pdac")) && AnyIn(lower, CancerTokens)))
  {
  }

  /** Every PDAC term mentions "pancrea" or "pdac". */
  lemma PdacTermsMentionPancreas(k: nat)
    requires k < |ClinicalTrials.PdacTerms|
    ensures Contains(ClinicalTrials.PdacTerms[k], "pancrea") || Contains(ClinicalTrials.PdacTerms[k], "pdac")
  {
    var term := ClinicalTrials.PdacTerms[k];
    if k == 1 {
      assert OccursAt(term, "pancrea", 29);
      ContainsAt(term, "pancrea", 29);
    } else if k == 4 {
      assert OccursAt(term, "pdac", 0);
      ContainsAt(term, "pdac", 0);
    } else {
      assert OccursAt(term, "pancrea", 0);
      ContainsAt(term, "pancrea", 0);
    }
  }

  /** Without "pancrea" or "pdac" in it, no text is a candidate. */
  lemma CandidateNeedsPancreas(text: string)
    requires !Contains(Lower(Trim(text)), "pancrea") && !Contains(Lower(Trim(text)), "pdac")
    ensures !IsPdacCandidate(text)
  {
    var lower := Lower(Trim(text));
    if lower != "" && ClinicalTrials.IsPdacCore(lower) {
      LowerIdempotent(Trim(text));
      var k :| 0 <= k < |ClinicalTrials.PdacTerms| && Contains(lower, ClinicalTrials.PdacTerms[k]);
      PdacTermsMentionPancreas(k);
      if Contains(ClinicalTrials.PdacTerms[k], "pancrea") {
        ContainsTransitive(lower, ClinicalTrials.PdacTerms[k], "pancrea");
      } else {
        ContainsTransitive(lower, ClinicalTrials.PdacTerms[k], "pdac");
      }
    }
  }

  // ---------------------------------------------------------------------------
  // _extract_pubmed_links
  // ---------------------------------------------------------------------------

  const PubmedPrefix := "https://pubmed.ncbi.nlm.nih.gov/"

  function DropLeadingSlashes(s: string): (r: string)
    ensures r == [] || r[0] != '/'
    decreases |s|
  {
    if s != [] && s[0] == '/' then DropLeadingSlashes(s[1..]) else s
  }

  function DropTrailingSlashes(s: string): (r: string)
    ensures r == [] || r[|r| - 1] != '/'
    decreases |s|
  {
    if s != [] && s[|s| - 1] == '/' then DropTrailingSlashes(s[..|s| - 1]) else s
  }

  /** str.strip('/') */
  function StripSlashes(s: string): string {
    DropTrailingSlashes(DropLeadingSlashes(s))
  }

  /** One pubmedUrl entry: kept as is when it starts with "http", otherwise read as a
      PubMed id or path and turned into a PubMed URL; "" for a blank entry. */
  function UrlEntry(raw: Json): string {
    var link := Clean(raw);
    if link == "" then ""
    else if StartsWith(link, "http") then link
    else PubmedPrefix + StripSlashes(link) + "/"
  }

  /** One pubmedCode entry: a PubMed URL for an all-digit code, "" otherwise. */
  function CodeEntry(code: Json): string {
    var pmid := Clean(code);
    if pmid != "" && AllDigits(pmid) then PubmedPrefix + pmid + "/" else ""
  }

  function UrlEntries(urls: seq<Json>): seq<string> {
    seq(|urls|, i requires 0 <= i < |urls| => UrlEntry(urls[i]))
  }

  function CodeEntries(codes: seq<Json>): seq<string> {
    seq(|codes|, i requires 0 <= i < |codes| => CodeEntry(codes[i]))
  }

  /** The `urls` list: the URL entries, then the code entries, each when present. */
  function PubmedUrls(urls: seq<Json>, codes: seq<Json>): seq<string> {
    ClinicalTrials.Present(UrlEntries(urls)) + ClinicalTrials.Present(CodeEntries(codes))
  }

  /** _extract_pubmed_links over the pubmedUrl and pubmedCode lists of the trial details. */
  method ExtractPubmedLinks(urls: seq<Json>, codes: seq<Json>) returns (r: string)
    ensures r == ClinicalTrials.JoinNonEmpty(Uniqued(PubmedUrls(urls, codes)), " | ")
  {
    var fromUrls := CollectUrls(urls);
    var fromCodes := CollectCodes(codes);
    var unique := Uniq(fromUrls + fromCodes);
    r := JoinNonEmptyLoop(unique, " | ");
  }

  /** The pubmedUrl loop. */
  method CollectUrls(raws: seq<Json>) returns (links: seq<string>)
    ensures links == ClinicalTrials.Present(UrlEntries(raws))
  {
    links := [];
    ghost var entries := UrlEntries(raws);
    var i := 0;
    while i < |raws|
      invariant 0 <= i <= |raws|
      invariant links == ClinicalTrials.Present(entries[..i])
    {
      ClinicalTrials.PresentStep(entries, i);
      var link := UrlEntryOf(raws[i]);
      if link != "" {
        links := links + [link];
      }
      i := i + 1;
    }
    assert entries[..i] == entries;
  }

  /** The pubmedCode loop. */
  method CollectCodes(raws: seq<Json>) returns (links: seq<string>)
    ensures links == ClinicalTrials.Present(CodeEntries(raws))
  {
    links := [];
    ghost var entries := CodeEntries(raws);
    var i := 0;
    while i < |raws|
      invariant 0 <= i <= |raws|
      invariant links == ClinicalTrials.Present(entries[..i])
    {
      ClinicalTrials.PresentStep(entries, i);
      var link := CodeEntryOf(raws[i]);
      if link != "" {
        links := links + [link];
      }
      i := i + 1;
    }
    assert entries[..i] == entries;
  }

  method UrlEntryOf(raw: Json) returns (link: string)
    ensures link == UrlEntry(raw)
  {
    link := Clean(raw);
    if link != "" && !StartsWith(link, "http") {
      link := PubmedPrefix + StripSlashes(link) + "/";
    }
  }

  method CodeEntryOf(code: Json) returns (link: string)
    ensures link == CodeEntry(code)
  {
    var pmid := Clean(code);
    link := "";
    if pmid != "" && AllDigits(pmid) {
      link := PubmedPrefix + pmid + "/";
    }
  }

  lemma PrefixedUrl(s: string)
    ensures var u := PubmedPrefix + s + "/";
            StartsWith(u, "http") && Trim(u) == u && u != ""
  {
    var u := PubmedPrefix + s + "/";
    assert u[..4] == "http";
    assert u[0] == 'h' && u[|u| - 1] == '/';
    TrimOfTrimmed(u);
  }

  /** Every collected link is a stripped "http" URL. */
  lemma PubmedUrlsAreLinks(urls: seq<Json>, codes: seq<Json>)
    ensures forall x :: x in PubmedUrls(urls, codes) ==> StartsWith(x, "http") && Trim(x) == x
  {
    ClinicalTrials.PresentMembers(UrlEntries(urls));
    ClinicalTrials.PresentMembers(CodeEntries(codes));
    forall x | x in PubmedUrls(urls, codes) ensures StartsWith(x, "http") && Trim(x) == x {
      if x in ClinicalTrials.Present(UrlEntries(urls)) {
        var k :| 0 <= k < |urls| && UrlEntries(urls)[k] == x;
        var link := Clean(urls[k]);
        CleanStripped(urls[k]);
        if !StartsWith(link, "http") {
          PrefixedUrl(StripSlashes(link));
        }
      } else {
        var k :| 0 <= k < |codes| && CodeEntries(codes)[k] == x;
        PrefixedUrl(Clean(codes[k]));
      }
    }
  }

  /** The links column lists each collected link once, and nothing else. */
  lemma PubmedLinksListed(urls: seq<Json>, codes: seq<Json>)
    ensures forall x :: x in Uniqued(PubmedUrls(urls, codes)) <==> x in PubmedUrls(urls, codes)
    ensures forall x :: x in Uniqued(PubmedUrls(urls, codes)) ==> StartsWith(x, "http")
  {
    var xs := PubmedUrls(urls, codes);
    PubmedUrlsAreLinks(urls, codes);
    UniquedSpec(xs);
    forall x | x in Uniqued(xs) ensures x in xs {
      var v :| v in xs && Trim(v) == x;
    }
    forall x | x in xs ensures x in Uniqued(xs) {
      assert x != [] by { assert |x| >= 4; }
      assert TrimsTo(xs, x);
    }
  }

  /** Every all-digit PubMed code shows up in the links column as a PubMed URL. */
  lemma PubmedCodeListed(urls: seq<Json>, codes: seq<Json>, k: nat)
    requires k < |codes| && Clean(codes[k]) != "" && AllDigits(Clean(codes[k]))
    ensures Contains(ClinicalTrials.JoinNonEmpty(Uniqued(PubmedUrls(urls, codes)), " | "),
                     PubmedPrefix + Clean(codes[k]) + "/")
  {
    var u := PubmedPrefix + Clean(codes[k]) + "/";
    ClinicalTrials.PresentMembers(CodeEntries(codes));
    assert CodeEntries(codes)[k] == u;
    assert u in PubmedUrls(urls, codes);
    PubmedLinksListed(urls, codes);
    PrefixedUrl(Clean(codes[k]));
    ClinicalTrials.JoinNonEmptyMentions(Uniqued(PubmedUrls(urls, codes)), " | ", u);
  }

  // ---------------------------------------------------------------------------
  // _map_product_type and _extract_interventions
  // ---------------------------------------------------------------------------

  /** One entry of productDictionaryInfo.productSubstances. */
  datatype Substance = Substance(actSubstOrigin: Json, substanceOrigin: Json)

  /** One entry of authorizedPartI.products; `prodName` and `substances` come from its
      productDictionaryInfo. */
  datatype Product = Product(
    productName: Json,
    otherMedicinalProduct: Json,
    activeSubstanceNames: Json,
    prodName: Json,
    substances: seq<Substance>,
    devices: seq<Json>)

  /** Python's `a or b`. */
  function Or(a: Json, b: Json): Json {
    if Truthy(a) then a else b
  }

  function Origin(s: Substance): string {
    Lower(Clean(Or(s.actSubstOrigin, s.substanceOrigin)))
  }

  const KnownKinds: seq<string> := ["BIOLOGICAL", "DEVICE", "DRUG", "OTHER"]

  /** _map_product_type: a biological substance origin first, then devices, then a
      product name, else OTHER. */
  function MapProductType(p: Product): string {
    if exists k :: 0 <= k < |p.substances| && Contains(Origin(p.substances[k]), "biological") then
      "BIOLOGICAL"
    else if p.devices != [] then "DEVICE"
    else if Truthy(p.prodName) || Truthy(p.productName) then "DRUG"
    else "OTHER"
  }

  /** A product type is one of four labels, none empty or starting with a space, chosen
      with the precedence BIOLOGICAL, DEVICE, DRUG, OTHER. */
  lemma ProductTypeLabel(p: Product)
    ensures MapProductType(p) in {"BIOLOGICAL", "DEVICE", "DRUG", "OTHER"}
    ensures var bio := exists k :: 0 <= k < |p.substances| && Contains(Origin(p.substances[k]), "biological");
            (MapProductType(p) == "BIOLOGICAL" <==> bio) &&
            (MapProductType(p) == "DEVICE" <==> !bio && p.devices != []) &&
            (MapProductType(p) == "DRUG" <==>
               !bio && p.devices == [] && (Truthy(p.prodName) || Truthy(p.productName))) &&
            (MapProductType(p) == "OTHER" <==>
               !bio && p.devices == [] && !Truthy(p.prodName) && !Truthy(p.productName))
  {
  }

  /** The product type is a word that can head a labelled entry. */
  lemma ProductTypeWord(p: Product)
    ensures MapProductType(p) != "" && !IsSpace(MapProductType(p)[0])
  {
  }

  /** `productName or prodName or otherMedicinalProduct or jsonActiveSubstanceNames`, cleaned. */
  function ProductName(p: Product): string {
    Clean(Or(Or(Or(p.productName, p.prodName), p.otherMedicinalProduct), p.activeSubstanceNames))
  }

  /** A device's `name or deviceName`, cleaned; "" for an entry that is not a dict. */
  function DeviceName(d: Json): string {
    if d.JObj? then Clean(Or(Get(d.fields, "name"), Get(d.fields, "deviceName"))) else ""
  }

  function DeviceValue(d: Json): string {
    if DeviceName(d) != "" then "DEVICE: " + DeviceName(d) else ""
  }

  function DeviceKind(d: Json): string {
    if DeviceName(d) != "" then "DEVICE" else ""
  }

  function DeviceValues(ds: seq<Json>): seq<string> {
    ClinicalTrials.Present(seq(|ds|, i requires 0 <= i < |ds| => DeviceValue(ds[i])))
  }

  function DeviceKinds(ds: seq<Json>): seq<string> {
    ClinicalTrials.Present(seq(|ds|, i requires 0 <= i < |ds| => DeviceKind(ds[i])))
  }

  /** What one product adds to `values`: "TYPE: name" when it has a name, then one
      "DEVICE: name" per named device. */
  function ProductValues(p: Product): seq<string> {
    var name := ProductName(p);
    (if name != "" then [MapProductType(p) + ": " + name] else []) + DeviceValues(p.devices)
  }

  /** What one product adds to `types`: its type, then DEVICE per named device. */
  function ProductKinds(p: Product): seq<string> {
    [MapProductType(p)] + DeviceKinds(p.devices)
  }

  /** The lists of a list, concatenated in order. */
  function Concat(xss: seq<seq<string>>): seq<string>
    decreases |xss|
  {
    if xss == [] then [] else Concat(xss[..|xss| - 1]) + xss[|xss| - 1]
  }

  lemma {:induction false} ConcatMembers(xss: seq<seq<string>>)
    ensures forall v :: v in Concat(xss) <==> exists k :: 0 <= k < |xss| && v in xss[k]
    decreases |xss|
  {
    if xss != [] {
      var init := xss[..|xss| - 1];
      ConcatMembers(init);
      forall v | exists k :: 0 <= k < |xss| && v in xss[k]
        ensures v in Concat(xss)
      {
        var k :| 0 <= k < |xss| && v in xss[k];
        if k < |xss| - 1 {
          assert init[k] == xss[k];
        }
      }
      forall v | v in Concat(init)
        ensures exists k :: 0 <= k < |xss| && v in xss[k]
      {
        var k :| 0 <= k < |init| && v in init[k];
        assert xss[k] == init[k];
      }
    }
  }

  lemma ConcatStep(xss: seq<seq<string>>, i: nat)
    requires i < |xss|
    ensures Concat(xss[..i + 1]) == Concat(xss[..i]) + xss[i]
  {
    assert xss[..i + 1][..i] == xss[..i];
  }

  /** What the product loop collects into `values`. */
  function InterventionValues(ps: seq<Product>): seq<string> {
    Concat(seq(|ps|, i requires 0 <= i < |ps| => ProductValues(ps[i])))
  }

  /** What the product loop collects into `types`. */
  function InterventionKinds(ps: seq<Product>): seq<string> {
    Concat(seq(|ps|, i requires 0 <= i < |ps| => ProductKinds(ps[i])))
  }

  /** The overview's product is added as a DRUG when no collected value mentions it. */
  predicate AddsOverview(values: seq<string>, overview: string) {
    overview != "" && !(exists k :: 0 <= k < |values| && Contains(values[k], overview))
  }

  function WithOverview(values: seq<string>, overview: string): seq<string> {
    if AddsOverview(values, overview) then values + ["DRUG: " + overview] else values
  }

  function AllValues(ps: seq<Product>, overviewProduct: Json): seq<string> {
    WithOverview(InterventionValues(ps), Clean(overviewProduct))
  }

  function AllKinds(ps: seq<Product>, overviewProduct: Json): seq<string> {
    var kinds := InterventionKinds(ps);
    if AddsOverview(InterventionValues(ps), Clean(overviewProduct)) then kinds + ["DRUG"] else kinds
  }

  /** _extract_interventions: the interventions column and the intervention-types column. */
  method ExtractCtisInterventions(products: seq<Product>, overviewProduct: Json)
    returns (interventions: string, types: string)
    ensures interventions == ClinicalTrials.JoinNonEmpty(Uniqued(AllValues(products, overviewProduct)), " | ")
    ensures types == ClinicalTrials.JoinNonEmpty(Uniqued(AllKinds(products, overviewProduct)), ", ")
  {
    var values, kinds := CollectProducts(products);
    var overview := Clean(overviewProduct);
    if overview != "" {
      if !(exists k :: 0 <= k < |values| && Contains(values[k], overview)) {
        values := values + ["DRUG: " + overview];
        kinds := kinds + ["DRUG"];
      }
    }
    var uniqueTypes := Uniq(kinds);
    var uniqueValues := Uniq(values);
    interventions := JoinNonEmptyLoop(uniqueValues, " | ");
    types := JoinNonEmptyLoop(uniqueTypes, ", ");
  }

  /** The loop over authorizedPartI.products. */
  method CollectProducts(products: seq<Product>) returns (values: seq<string>, kinds: seq<string>)
    ensures values == InterventionValues(products) && kinds == InterventionKinds(products)
  {
    values := [];
    kinds := [];
    ghost var valueLists := seq(|products|, i requires 0 <= i < |products| => ProductValues(products[i]));
    ghost var kindLists := seq(|products|, i requires 0 <= i < |products| => ProductKinds(products[i]));
    var i := 0;
    while i < |products|
      invariant 0 <= i <= |products|
      invariant values == Concat(valueLists[..i])
      invariant kinds == Concat(kindLists[..i])
    {
      ConcatStep(valueLists, i);
      ConcatStep(kindLists, i);
      var vs, ks := ProductEntries(products[i]);
      values := values + vs;
      kinds := kinds + ks;
      i := i + 1;
    }
    assert valueLists[..i] == valueLists;
    assert kindLists[..i] == kindLists;
  }

  /** The loop body for one product. */
  method ProductEntries(p: Product) returns (values: seq<string>, kinds: seq<string>)
    ensures values == ProductValues(p) && kinds == ProductKinds(p)
  {
    var kind := MapProductType(p);
    var name := ProductName(p);
    var deviceValues, deviceKinds := DeviceEntries(p.devices);
    values := (if name != "" then [kind + ": " + name] else []) + deviceValues;
    kinds := [kind] + deviceKinds;
  }

  /** The inner loop over a product's devices, skipping entries that are not dicts. */
  method DeviceEntries(ds: seq<Json>) returns (values: seq<string>, kinds: seq<string>)
    ensures values == DeviceValues(ds) && kinds == DeviceKinds(ds)
  {
    values := [];
    kinds := [];
    ghost var named := seq(|ds|, i requires 0 <= i < |ds| => DeviceValue(ds[i]));
    ghost var marks := seq(|ds|, i requires 0 <= i < |ds| => DeviceKind(ds[i]));
    var j := 0;
    while j < |ds|
      invariant 0 <= j <= |ds|
      invariant values == ClinicalTrials.Present(named[..j])
      invariant kinds == ClinicalTrials.Present(marks[..j])
    {
      ClinicalTrials.PresentStep(named, j);
      ClinicalTrials.PresentStep(marks, j);
      var deviceName := DeviceNameOf(ds[j]);
      if deviceName != "" {
        values := values + ["DEVICE: " + deviceName];
        kinds := kinds + ["DEVICE"];
      }
      j := j + 1;
    }
    assert named[..j] == named;
    assert marks[..j] == marks;
  }

  method DeviceNameOf(d: Json) returns (name: string)
    ensures name == DeviceName(d)
  {
    name := "";
    if d.JObj? {
      name := Clean(Or(Get(d.fields, "name"), Get(d.fields, "deviceName")));
    }
  }

  /** "LABEL: name" with a non-blank stripped name is stripped and mentions the name. */
  lemma LabelledEntry(kind: string, name: string)
    requires kind != "" && !IsSpace(kind[0])
    requires name != "" && Trim(name) == name
    ensures var e := kind + ": " + name;
            e != "" && Trim(e) == e && Contains(e, name)
  {
    var e := kind + ": " + name;
    assert !IsSpace(name[|name| - 1]);
    assert e[0] == kind[0] && e[|e| - 1] == name[|name| - 1];
    TrimOfTrimmed(e);
    assert OccursAt(e, name, |kind| + 2);
    ContainsAt(e, name, |kind| + 2);
  }

  lemma DeviceValuesStripped(ds: seq<Json>)
    ensures forall v :: v in DeviceValues(ds) ==> v != "" && Trim(v) == v
  {
    var named := seq(|ds|, i requires 0 <= i < |ds| => DeviceValue(ds[i]));
    ClinicalTrials.PresentMembers(named);
    forall v | v in DeviceValues(ds) ensures v != "" && Trim(v) == v {
      var k :| 0 <= k < |ds| && named[k] == v;
      DeviceValueStripped(ds[k]);
    }
  }

  lemma DeviceValueStripped(d: Json)
    ensures DeviceValue(d) != "" ==> Trim(DeviceValue(d)) == DeviceValue(d)
  {
    if DeviceName(d) != "" {
      CleanStripped(Or(Get(d.fields, "name"), Get(d.fields, "deviceName")));
      DevicePrefix();
      LabelledEntry("DEVICE", DeviceName(d));
    }
  }

  lemma DevicePrefix()
    ensures "DEVICE" + ": " == "DEVICE: " && !IsSpace("DEVICE"[0])
  {
  }

  lemma ProductValuesStripped(p: Product)
    ensures forall v :: v in ProductValues(p) ==> v != "" && Trim(v) == v
  {
    var name := ProductName(p);
    DeviceValuesStripped(p.devices);
    if name != "" {
      CleanStripped(Or(Or(Or(p.productName, p.prodName), p.otherMedicinalProduct), p.activeSubstanceNames));
      ProductTypeWord(p);
      LabelledEntry(MapProductType(p), name);
      var head := MapProductType(p) + ": " + name;
      assert ProductValues(p) == [head] + DeviceValues(p.devices);
    } else {
      assert ProductValues(p) == DeviceValues(p.devices);
    }
  }

  /** The collected values are exactly the products' values. */
  lemma InterventionValuesMembers(ps: seq<Product>)
    ensures forall v :: v in InterventionValues(ps) <==> exists k :: 0 <= k < |ps| && v in ProductValues(ps[k])
  {
    var lists := seq(|ps|, i requires 0 <= i < |ps| => ProductValues(ps[i]));
    ConcatMembers(lists);
    forall v, k | 0 <= k < |ps| && v in ProductValues(ps[k]) ensures v in InterventionValues(ps) {
      assert v in lists[k];
    }
  }

  lemma InterventionValuesStripped(ps: seq<Product>)
    ensures forall v :: v in InterventionValues(ps) ==> v != "" && Trim(v) == v
  {
    InterventionValuesMembers(ps);
    forall v | v in InterventionValues(ps) ensures v != "" && Trim(v) == v {
      var k :| 0 <= k < |ps| && v in ProductValues(ps[k]);
      ProductValuesStripped(ps[k]);
    }
  }

  lemma WithOverviewStripped(values: seq<string>, overview: string)
    requires forall v :: v in values ==> v != "" && Trim(v) == v
    requires Trim(overview) == overview
    ensures forall v :: v in WithOverview(values, overview) ==> v != "" && Trim(v) == v
  {
    if AddsOverview(values, overview) {
      LabelledEntry("DRUG", overview);
      assert "DRUG" + ": " + overview == "DRUG: " + overview;
    }
  }

  lemma AllValuesStripped(ps: seq<Product>, overviewProduct: Json)
    ensures forall v :: v in AllValues(ps, overviewProduct) ==> v != "" && Trim(v) == v
  {
    InterventionValuesStripped(ps);
    CleanStripped(overviewProduct);
    WithOverviewStripped(InterventionValues(ps), Clean(overviewProduct));
  }

  /** A stripped non-empty value of the list reaches the interventions column. */
  lemma ValueListed(ps: seq<Product>, overviewProduct: Json, v: string)
    requires v in AllValues(ps, overviewProduct)
    ensures Contains(ClinicalTrials.JoinNonEmpty(Uniqued(AllValues(ps, overviewProduct)), " | "), v)
  {
    var values := AllValues(ps, overviewProduct);
    AllValuesStripped(ps, overviewProduct);
    UniquedSpec(values);
    assert TrimsTo(values, v);
    ClinicalTrials.JoinNonEmptyMentions(Uniqued(values), " | ", v);
  }

  /** Every named product shows up in the interventions column. */
  lemma ProductNameListed(ps: seq<Product>, overviewProduct: Json, k: nat)
    requires k < |ps| && ProductName(ps[k]) != ""
    ensures Contains(ClinicalTrials.JoinNonEmpty(Uniqued(AllValues(ps, overviewProduct)), " | "),
                     ProductName(ps[k]))
  {
    var p := ps[k];
    var e := MapProductType(p) + ": " + ProductName(p);
    assert e in ProductValues(p);
    InterventionValuesMembers(ps);
    assert e in AllValues(ps, overviewProduct);
    ValueListed(ps, overviewProduct, e);
    CleanStripped(Or(Or(Or(p.productName, p.prodName), p.otherMedicinalProduct), p.activeSubstanceNames));
    ProductTypeWord(p);
    LabelledEntry(MapProductType(p), ProductName(p));
    ContainsTransitive(ClinicalTrials.JoinNonEmpty(Uniqued(AllValues(ps, overviewProduct)), " | "), e, ProductName(p));
  }

  /** Some value of the list mentions the overview's product: an existing one, or the
      added DRUG entry. */
  lemma OverviewCovered(values: seq<string>, overview: string) returns (e: string)
    requires overview != "" && Trim(overview) == overview
    ensures e in WithOverview(values, overview) && Contains(e, overview)
  {
    if AddsOverview(values, overview) {
      e := "DRUG: " + overview;
      LabelledEntry("DRUG", overview);
      assert "DRUG" + ": " + overview == e;
    } else {
      var k :| 0 <= k < |values| && Contains(values[k], overview);
      e := values[k];
    }
  }

  /** The overview's product always shows up in the interventions column. */
  lemma OverviewProductListed(ps: seq<Product>, overviewProduct: Json)
    requires Clean(overviewProduct) != ""
    ensures Contains(ClinicalTrials.JoinNonEmpty(Uniqued(AllValues(ps, overviewProduct)), " | "),
                     Clean(overviewProduct))
  {
    CleanStripped(overviewProduct);
    var e := OverviewCovered(InterventionValues(ps), Clean(overviewProduct));
    ValueListed(ps, overviewProduct, e);
    ContainsTransitive(ClinicalTrials.JoinNonEmpty(Uniqued(AllValues(ps, overviewProduct)), " | "),
                       e, Clean(overviewProduct));
  }

  lemma InterventionKindsKnown(ps: seq<Product>)
    ensures forall t :: t in InterventionKinds(ps) ==> t in KnownKinds
  {
    var lists := seq(|ps|, i requires 0 <= i < |ps| => ProductKinds(ps[i]));
    ConcatMembers(lists);
    forall t | t in InterventionKinds(ps) ensures t in KnownKinds {
      var k :| 0 <= k < |lists| && t in lists[k];
      ProductKindsKnown(ps[k]);
    }
  }

  lemma ProductKindsKnown(p: Product)
    ensures forall t :: t in ProductKinds(p) ==> t in KnownKinds
  {
    var ds := p.devices;
    ClinicalTrials.PresentMembers(seq(|ds|, i requires 0 <= i < |ds| => DeviceKind(ds[i])));
  }

  lemma AllKindsKnown(ps: seq<Product>, overviewProduct: Json)
    ensures forall t :: t in AllKinds(ps, overviewProduct) ==> t in KnownKinds
  {
    InterventionKindsKnown(ps);
  }

  /** De-duplicating stripped values drawn from a fixed list draws from that list. */
  lemma UniquedWithin(values: seq<string>, allowed: seq<string>)
    requires forall v :: v in values ==> v in allowed && Trim(v) == v
    ensures forall t :: t in Uniqued(values) ==> t in allowed
  {
    UniquedSpec(values);
    forall t | t in Uniqued(values) ensures t in allowed {
      var v :| v in values && Trim(v) == t;
    }
  }

  /** The types column lists each kind once, and only the four product kinds. */
  lemma TypesAreProductKinds(ps: seq<Product>, overviewProduct: Json)
    ensures forall t :: t in Uniqued(AllKinds(ps, overviewProduct)) ==> t in KnownKinds
    ensures var u := Uniqued(AllKinds(ps, overviewProduct));
            forall i, j :: 0 <= i < j < |u| ==> u[i] != u[j]
  {
    var kinds := AllKinds(ps, overviewProduct);
    AllKindsKnown(ps, overviewProduct);
    KnownKindsTrimmed();
    UniquedWithin(kinds, KnownKinds);
    UniquedSpec(kinds);
  }

  lemma KnownKindsTrimmed()
    ensures forall t :: t in KnownKinds ==> Trim(t) == t
  {
    forall t | t in KnownKinds ensures Trim(t) == t {
      TrimOfTrimmed(t);
    }
  }

  // ---------------------------------------------------------------------------
  // _normalize_results_flag
  // ---------------------------------------------------------------------------

  /** _normalize_results_flag: the overview's resultsFirstReceived answer when it is a
      yes/no word, otherwise whether the details list any summary or lay-person results. */
  function NormalizeResultsFlag(resultsFirstReceived: Json, results: map<string, Json>): (r: string)
    ensures r == "yes" || r == "no"
  {
    var value := Lower(Clean(resultsFirstReceived));
    if value == "yes" || value == "true" then "yes"
    else if value == "no" || value == "false" then "no"
    else if Truthy(Get(results, "summaryResults")) || Truthy(Get(results, "laypersonResults")) then "yes"
    else "no"
  }

  /** An explicit answer wins over the payload, in either direction; a boolean answer is
      read through its Python text ("True"/"False"). */
  lemma ResultsFlagAnswer(resultsFirstReceived: Json, results: map<string, Json>)
    ensures var v := Lower(Clean(resultsFirstReceived));
            (v == "yes" || v == "true" ==> NormalizeResultsFlag(resultsFirstReceived, results) == "yes") &&
            (v == "no" || v == "false" ==> NormalizeResultsFlag(resultsFirstReceived, results) == "no") &&
            (v !in {"yes", "true", "no", "false"} ==>
               (NormalizeResultsFlag(resultsFirstReceived, results) == "yes" <==>
                  Truthy(Get(results, "summaryResults")) || Truthy(Get(results, "laypersonResults"))))
    ensures resultsFirstReceived.JBool? ==>
              NormalizeResultsFlag(resultsFirstReceived, results) ==
              (if resultsFirstReceived.b then "yes" else "no")
    ensures resultsFirstReceived == JStr("No") ==> NormalizeResultsFlag(resultsFirstReceived, results) == "no"
    ensures (resultsFirstReceived.JNull? &&
             (Truthy(Get(results, "summaryResults")) || Truthy(Get(results, "laypersonResults")))) ==>
              NormalizeResultsFlag(resultsFirstReceived, results) == "yes"
  {
    if resultsFirstReceived.JBool? {
      var text := PyStr(resultsFirstReceived);
      TrimOfTrimmed(text);
      assert Lower(text) == (if resultsFirstReceived.b then "true" else "false");
    }
    if resultsFirstReceived == JStr("No") {
      TrimOfTrimmed("No");
      assert Lower("No") == "no";
    }
  }
}
