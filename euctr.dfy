/** The legacy EU Clinical Trials Register (EUCTR) client: the parser of the summary export,
    the reading of a protocol status, the merge of the rows that several search terms return
    by EudraCT number, and the study rows built from the merged entries. */
module Euctr {
  import opened Text
  import opened Records
  import opened Collections
  import ClinicalTrials
  import Ctis

  // ---------------------------------------------------------------------------
  // Search terms
  // ---------------------------------------------------------------------------

  const DefaultQueryTerms: seq<string> := [
    "pancreatic",
    "pancreas",
    "pancreatic cancer",
    "pdac",
    "pancreatic adenocarcinoma",
    "ductal adenocarcinoma"]

  /** `_uniq(query_terms or DEFAULT_EUCTR_QUERY_TERMS)`; a missing list is passed as []. */
  function QueryTerms(queryTerms: seq<string>): seq<string> {
    Uniqued(if queryTerms == [] then DefaultQueryTerms else queryTerms)
  }

  lemma DefaultTermsClean()
    ensures forall t :: t in DefaultQueryTerms ==> t != "" && Trim(t) == t
    ensures KeyUnique(DefaultQueryTerms, Same)
  {
    var d := DefaultQueryTerms;
    forall k | 0 <= k < |d| ensures d[k] != "" && Trim(d[k]) == d[k] {
      assert d[k][0] == 'p' || d[k][0] == 'd';
      assert d[k][|d[k]| - 1] in "csra";
      TrimOfTrimmed(d[k]);
    }
    forall i, j | 0 <= i < j < |d| ensures d[i] != d[j] {
      assert |d[i]| != |d[j]|;
    }
  }

  /** Without explicit terms the defaults are searched, as listed; explicit terms are searched
      stripped, once each, and blank ones are dropped (a list of blanks searches nothing). */
  lemma QueryTermsSpec(queryTerms: seq<string>)
    ensures queryTerms == [] ==> QueryTerms(queryTerms) == DefaultQueryTerms
    ensures queryTerms != [] ==>
              forall t :: t in QueryTerms(queryTerms) <==> t != "" && TrimsTo(queryTerms, t)
    ensures KeyUnique(QueryTerms(queryTerms), Same)
  {
    UniquedSpec(queryTerms);
    UniquedSpec(DefaultQueryTerms);
    if queryTerms == [] {
      DefaultTermsClean();
      NonBlankTrimmedOfClean(DefaultQueryTerms);
      DedupByOfUnique(DefaultQueryTerms, Same);
    }
  }

  // ---------------------------------------------------------------------------
  // EuctrSummaryRow
  // ---------------------------------------------------------------------------

  /** The fields of one trial of the summary export. */
  datatype SummaryRow = SummaryRow(
    eudractNumber: string,
    sponsorName: string,
    sponsorProtocolNumber: string,
    fullTitle: string,
    startDate: string,
    medicalConditions: seq<string>,
    diseases: seq<string>,
    populationAge: string,
    gender: string,
    trialProtocols: seq<string>,
    link: string)

  /** A row just opened by its header line. */
  function NewRow(number: string): SummaryRow {
    SummaryRow(number, "", "", "", "", [], [], "", "", [], "")
  }

  const SponsorNameKey := "sponsor name"
  const SponsorProtocolNumberKey := "sponsor protocol number"
  const FullTitleKey := "full title"
  const StartDateKey := "start date"
  const MedicalConditionKey := "medical condition"
  const DiseaseKey := "disease"
  const PopulationAgeKey := "population age"
  const GenderKey := "gender"
  const TrialProtocolKey := "trial protocol"
  const LinkKey := "link"
  const FieldKeys: set<string> := {
    SponsorNameKey, SponsorProtocolNumberKey, FullTitleKey, StartDateKey, MedicalConditionKey,
    DiseaseKey, PopulationAgeKey, GenderKey, TrialProtocolKey, LinkKey}

  /** What a `key: value` line does to the open row: a scalar field takes the value, a list
      field gains it when it is not empty, any other key is ignored. */
  function ApplyField(row: SummaryRow, key: string, value: string): SummaryRow {
    if key == SponsorNameKey then row.(sponsorName := value)
    else if key == SponsorProtocolNumberKey then row.(sponsorProtocolNumber := value)
    else if key == FullTitleKey then row.(fullTitle := value)
    else if key == StartDateKey then row.(startDate := value)
    else if key == MedicalConditionKey then
      (if value != "" then row.(medicalConditions := row.medicalConditions + [value]) else row)
    else if key == DiseaseKey then
      (if value != "" then row.(diseases := row.diseases + [value]) else row)
    else if key == PopulationAgeKey then row.(populationAge := value)
    else if key == GenderKey then row.(gender := value)
    else if key == TrialProtocolKey then
      (if value != "" then row.(trialProtocols := row.trialProtocols + [value]) else row)
    else if key == LinkKey then row.(link := value)
    else row
  }

  /** Items of a list field: non-blank and stripped. */
  predicate CleanItems(xs: seq<string>) {
    forall x :: x in xs ==> x != "" && Trim(x) == x
  }

  /** What every parsed row satisfies: a stripped number and stripped non-blank list items. */
  predicate CleanRow(r: SummaryRow) {
    Trim(r.eudractNumber) == r.eudractNumber &&
    CleanItems(r.medicalConditions) && CleanItems(r.diseases) && CleanItems(r.trialProtocols)
  }

  /** A field line never changes the EudraCT number, an unknown key changes nothing, and a
      list field only ever gains the value, and only a non-empty one. */
  lemma ApplyFieldFrame(row: SummaryRow, key: string, value: string)
    ensures var r := ApplyField(row, key, value);
            r.eudractNumber == row.eudractNumber &&
            (key !in FieldKeys ==> r == row) &&
            (r.medicalConditions == row.medicalConditions ||
             (value != "" && r.medicalConditions == row.medicalConditions + [value])) &&
            (r.diseases == row.diseases || (value != "" && r.diseases == row.diseases + [value])) &&
            (r.trialProtocols == row.trialProtocols ||
             (value != "" && r.trialProtocols == row.trialProtocols + [value]))
  {
  }

  /** A row that is clean stays clean under a stripped value. */
  lemma ApplyFieldClean(row: SummaryRow, key: string, value: string)
    requires CleanRow(row) && Trim(value) == value
    ensures CleanRow(ApplyField(row, key, value))
  {
    ApplyFieldFrame(row, key, value);
  }

  /** A later row with the same number merged into the first: the lists are de-duplicated
      together, the link is taken only while the first has none, the rest stays. */
  function MergeInto(existing: SummaryRow, row: SummaryRow): SummaryRow {
    existing.(medicalConditions := Uniqued(existing.medicalConditions + row.medicalConditions),
              diseases := Uniqued(existing.diseases + row.diseases),
              trialProtocols := Uniqued(existing.trialProtocols + row.trialProtocols),
              link := if existing.link == "" then row.link else existing.link)
  }

  /** EuctrSummaryRow: the parser fills one of these field by field and the merge updates
      the first row of each EudraCT number in place. */
  class EuctrSummaryRow {
    var eudractNumber: string
    var sponsorName: string
    var sponsorProtocolNumber: string
    var fullTitle: string
    var startDate: string
    var medicalConditions: seq<string>
    var diseases: seq<string>
    var populationAge: string
    var gender: string
    var trialProtocols: seq<string>
    var link: string

    function Value(): SummaryRow
      reads this
    {
      SummaryRow(eudractNumber, sponsorName, sponsorProtocolNumber, fullTitle, startDate,
                 medicalConditions, diseases, populationAge, gender, trialProtocols, link)
    }

    constructor (number: string)
      ensures Value() == NewRow(number)
    {
      eudractNumber := number;
      sponsorName := "";
      sponsorProtocolNumber := "";
      fullTitle := "";
      startDate := "";
      medicalConditions := [];
      diseases := [];
      populationAge := "";
      gender := "";
      trialProtocols := [];
      link := "";
    }

    /** The if/elif chain over the lower-cased key of a field line. */
    method Assign(key: string, value: string)
      modifies this
      ensures Value() == ApplyField(old(Value()), key, value)
    {
      if key == SponsorNameKey {
        sponsorName := value;
      } else if key == SponsorProtocolNumberKey {
        sponsorProtocolNumber := value;
      } else if key == FullTitleKey {
        fullTitle := value;
      } else if key == StartDateKey {
        startDate := value;
      } else if key == MedicalConditionKey {
        if value != "" {
          medicalConditions := medicalConditions + [value];
        }
      } else if key == DiseaseKey {
        if value != "" {
          diseases := diseases + [value];
        }
      } else if key == PopulationAgeKey {
        populationAge := value;
      } else if key == GenderKey {
        gender := value;
      } else if key == TrialProtocolKey {
        if value != "" {
          trialProtocols := trialProtocols + [value];
        }
      } else if key == LinkKey {
        link := value;
      }
    }

    /** The merge of a later row with the same number into this, the first one. */
    method Absorb(other: EuctrSummaryRow)
      requires other != this
      modifies this
      ensures Value() == MergeInto(old(Value()), other.Value())
    {
      ghost var before := Value();
      var incoming := other.Value();
      var conditions := Uniq(medicalConditions + other.medicalConditions);
      var merged := Uniq(diseases + other.diseases);
      var protocols := Uniq(trialProtocols + other.trialProtocols);
      var newLink := link;
      if link == "" {
        newLink := other.link;
      }
      ghost var after := before.(medicalConditions := conditions, diseases := merged,
                                 trialProtocols := protocols, link := newLink);
      assert MergeInto(before, incoming) == after;
      medicalConditions, diseases, trialProtocols, link := conditions, merged, protocols, newLink;
      assert Value() == after;
    }
  }

  // ---------------------------------------------------------------------------
  // splitlines and line.split(":", 1)
  // ---------------------------------------------------------------------------

  /** The line boundaries str.splitlines() recognises. */
  predicate IsLineBreak(c: char) {
    var n := c as int;
    (10 <= n <= 13) || (28 <= n <= 30) || n == 0x85 || n == 0x2028 || n == 0x2029
  }

  /** The text cut at every line boundary. Python joins "\r\n" into one boundary and drops
      the piece after a final boundary; both only add empty pieces here, which the parser
      skips. */
  function Lines(text: string): (r: seq<string>)
    ensures |r| >= 1
    decreases |text|
  {
    if text == [] then [""]
    else
      var ls := Lines(text[..|text| - 1]);
      var c := text[|text| - 1];
      if IsLineBreak(c) then ls + [""] else ls[..|ls| - 1] + [ls[|ls| - 1] + [c]]
  }

  /** No piece holds a line boundary. */
  lemma {:induction false} LinesHaveNoBreaks(text: string)
    ensures forall k, j :: 0 <= k < |Lines(text)| && 0 <= j < |Lines(text)[k]| ==>
              !IsLineBreak(Lines(text)[k][j])
    decreases |text|
  {
    if text != [] {
      var init := text[..|text| - 1];
      var c := text[|text| - 1];
      LinesHaveNoBreaks(init);
      var ls := Lines(init);
      var r := Lines(text);
      forall k, j | 0 <= k < |r| && 0 <= j < |r[k]| ensures !IsLineBreak(r[k][j]) {
        if k < |ls| - 1 {
          assert r[k] == ls[k];
        } else if k == |ls| - 1 {
          if !IsLineBreak(c) && j < |ls[k]| {
            assert r[k][j] == ls[k][j];
          }
        }
      }
    }
  }

  /** A text without a line boundary is a single line. */
  lemma {:induction false} SingleLine(text: string)
    requires forall j :: 0 <= j < |text| ==> !IsLineBreak(text[j])
    ensures Lines(text) == [text]
    decreases |text|
  {
    if text != [] {
      var init := text[..|text| - 1];
      forall j | 0 <= j < |init| ensures !IsLineBreak(init[j]) {
        assert init[j] == text[j];
      }
      SingleLine(init);
      assert init + [text[|text| - 1]] == text;
    }
  }

  /** Where `line.split(":", 1)` cuts, or -1 without a colon. */
  function ColonIndex(line: string): int {
    FindFrom(line, ":", 0)
  }

  /** `line.split(":", 1)[0]` (the whole line without a colon). */
  function BeforeColon(line: string): string {
    var i := ColonIndex(line);
    if i < 0 then line else line[..i]
  }

  /** `line.split(":", 1)[1]` ("" without a colon). */
  function AfterColon(line: string): string {
    var i := ColonIndex(line);
    if i < 0 then "" else line[i + 1..]
  }

  /** A line is cut exactly when it holds a colon. */
  lemma ColonFound(line: string)
    ensures ColonIndex(line) < 0 <==> !Contains(line, ":")
  {
    ContainsIff(line, ":");
  }

  /** The cut is at the first colon: the key holds none, the value keeps any later colon
      (so a link survives whole), and the two rebuild the line. */
  lemma ColonSplit(line: string)
    requires ColonIndex(line) >= 0
    ensures line == BeforeColon(line) + ":" + AfterColon(line)
    ensures ':' !in BeforeColon(line)
  {
    var i := ColonIndex(line);
    assert line[i..i + 1] == ":";
    assert line == line[..i] + ":" + line[i + 1..];
    forall j | 0 <= j < i ensures line[j] != ':' {
      if line[j] == ':' {
        assert line[j..j + 1] == ":";
        assert OccursAt(line, ":", j);
      }
    }
  }

  const Header := "EudraCT Number:"

  /** A header line cuts at the colon that ends "EudraCT Number:". */
  lemma HeaderColon(line: string)
    requires StartsWith(line, Header)
    ensures ColonIndex(line) == |Header| - 1
    ensures AfterColon(line) == line[|Header|..]
  {
    var i := ColonIndex(line);
    assert line[..|Header|] == Header;
    assert line[14] == Header[14] == ':';
    assert line[14..15] == ":";
    assert OccursAt(line, ":", 14);
    assert i != -1 && i <= 14;
    forall j | 0 <= j < 14 ensures line[j] != ':' {
      assert line[j] == Header[j];
      assert Header[j] in "EudraCT Nmbe";
    }
    assert line[i..i + 1] == ":";
    assert line[i] == ':';
  }

  // ---------------------------------------------------------------------------
  // parse_summary_text
  // ---------------------------------------------------------------------------

  /** The parser's two variables: the rows emitted so far and the row being filled. */
  datatype ParseState = ParseState(rows: seq<SummaryRow>, current: Option<SummaryRow>)

  /** A finished row is emitted only when it has a number. */
  function Flushed(current: Option<SummaryRow>): seq<SummaryRow> {
    if current.Some? && current.value.eudractNumber != "" then [current.value] else []
  }

  /** One raw line of the export. */
  function Step(st: ParseState, raw: string): ParseState {
    var line := Trim(raw);
    if line == "" then st
    else if StartsWith(line, Header) then
      ParseState(st.rows + Flushed(st.current), Some(NewRow(Trim(AfterColon(line)))))
    else if st.current.None? then st
    else if ColonIndex(line) < 0 then st
    else
      ParseState(st.rows, Some(ApplyField(st.current.value, Lower(Trim(BeforeColon(line))),
                                          Trim(AfterColon(line)))))
  }

  function Fold(lines: seq<string>): ParseState
    decreases |lines|
  {
    if lines == [] then ParseState([], None)
    else Step(Fold(lines[..|lines| - 1]), lines[|lines| - 1])
  }

  lemma FoldStep(lines: seq<string>, i: nat)
    requires i < |lines|
    ensures Fold(lines[..i + 1]) == Step(Fold(lines[..i]), lines[i])
  {
    assert lines[..i + 1][..i] == lines[..i];
  }

  /** parse_summary_text on the lines of the export, the last open row flushed at the end. */
  function ParseSummary(lines: seq<string>): seq<SummaryRow> {
    var st := Fold(lines);
    st.rows + Flushed(st.current)
  }

  /** Emitted rows do not depend on the open row's history: a step appends to the rows. */
  lemma StepAppends(st: ParseState, raw: string)
    ensures var s := Step(ParseState([], st.current), raw);
            Step(st, raw) == ParseState(st.rows + s.rows, s.current)
  {
  }

  /** Row objects whose current values are the given rows, position by position. */
  predicate Mirrors(objs: seq<EuctrSummaryRow>, vals: seq<SummaryRow>)
    reads objs
  {
    |objs| == |vals| && forall k :: 0 <= k < |objs| ==> objs[k].Value() == vals[k]
  }

  lemma MirrorsAppend(objs: seq<EuctrSummaryRow>, vals: seq<SummaryRow>,
                      more: seq<EuctrSummaryRow>, moreVals: seq<SummaryRow>)
    requires Mirrors(objs, vals) && Mirrors(more, moreVals)
    ensures Mirrors(objs + more, vals + moreVals)
  {
  }

  /** The row being filled, as a parse-state value. */
  function Open(current: EuctrSummaryRow?): Option<SummaryRow>
    reads current
  {
    if current == null then None else Some(current.Value())
  }

  /** One pass of the loop body: skip the line, emit the open row and open a new one on a
      header, or fill a field of the open row in place. */
  method FeedLine(current: EuctrSummaryRow?, raw: string)
    returns (emitted: seq<EuctrSummaryRow>, next: EuctrSummaryRow?)
    modifies current
    ensures emitted == [] || (current != null && emitted == [current])
    ensures next == current || (next != null && fresh(next))
    ensures emitted != [] ==> next != current
    ensures var st := Step(ParseState([], old(Open(current))), raw);
            Mirrors(emitted, st.rows) && Open(next) == st.current
  {
    var line := Trim(raw);
    emitted := [];
    next := current;
    if line == "" {
    } else if StartsWith(line, Header) {
      if current != null && current.eudractNumber != "" {
        emitted := [current];
      }
      next := new EuctrSummaryRow(Trim(AfterColon(line)));
    } else if current == null {
    } else if ColonIndex(line) < 0 {
    } else {
      current.Assign(Lower(Trim(BeforeColon(line))), Trim(AfterColon(line)));
    }
  }

  /** Row objects listed at most once each. */
  predicate Distinct(objs: seq<EuctrSummaryRow>) {
    forall a, b :: 0 <= a < b < |objs| ==> objs[a] != objs[b]
  }

  /** The loop body against the parser state: the rows and the open row follow one step. */
  method ParseLine(rows: seq<EuctrSummaryRow>, current: EuctrSummaryRow?, raw: string,
                   ghost st: ParseState)
    returns (rows': seq<EuctrSummaryRow>, current': EuctrSummaryRow?)
    requires Mirrors(rows, st.rows) && Distinct(rows) && Open(current) == st.current
    requires current != null ==> current !in rows
    modifies current
    ensures Mirrors(rows', Step(st, raw).rows) && Distinct(rows')
    ensures Open(current') == Step(st, raw).current
    ensures current' != null ==> current' !in rows'
    ensures forall r :: r in rows' ==> r in rows || r == current
    ensures current' == current || (current' != null && fresh(current'))
  {
    StepAppends(st, raw);
    ghost var s := Step(ParseState([], st.current), raw);
    var emitted;
    emitted, current' := FeedLine(current, raw);
    MirrorsAppend(rows, st.rows, emitted, s.rows);
    rows' := rows + emitted;
  }

  /** parse_summary_text as the source writes it: one mutable row object per header line,
      filled in place and appended when the next header (or the end) arrives. */
  method ParseSummaryText(text: string) returns (rows: seq<EuctrSummaryRow>)
    ensures Mirrors(rows, ParseSummary(Lines(text)))
    ensures forall r :: r in rows ==> fresh(r)
    ensures Distinct(rows)
  {
    var lines := Lines(text);
    rows := [];
    var current: EuctrSummaryRow? := null;
    ghost var st := ParseState([], None);
    var i := 0;
    while i < |lines|
      invariant 0 <= i <= |lines|
      invariant st == Fold(lines[..i])
      invariant Mirrors(rows, st.rows) && Distinct(rows)
      invariant forall r :: r in rows ==> fresh(r)
      invariant Open(current) == st.current
      invariant current != null ==> fresh(current) && current !in rows
    {
      FoldStep(lines, i);
      rows, current := ParseLine(rows, current, lines[i], st);
      st := Step(st, lines[i]);
      i := i + 1;
    }
    assert lines[..i] == lines;
    if current != null && current.eudractNumber != "" {
      MirrorsAppend(rows, st.rows, [current], [current.Value()]);
      rows := rows + [current];
    }
    assert ParseSummary(lines) == st.rows + Flushed(st.current);
  }

  /** The EudraCT numbers of a list of rows. */
  function Numbers(rows: seq<SummaryRow>): (r: seq<string>)
    ensures |r| == |rows| && forall k :: 0 <= k < |rows| ==> r[k] == rows[k].eudractNumber
    decreases |rows|
  {
    if rows == [] then [] else Numbers(rows[..|rows| - 1]) + [rows[|rows| - 1].eudractNumber]
  }

  /** The number a header line opens a row with ("" for any other line). */
  function HeaderNumber(raw: string): string {
    var line := Trim(raw);
    if StartsWith(line, Header) then Trim(AfterColon(line)) else ""
  }

  /** Reference reading of the export: the non-blank numbers of its header lines, in order. */
  function HeaderNumbers(lines: seq<string>): seq<string>
    decreases |lines|
  {
    if lines == [] then []
    else
      var init := HeaderNumbers(lines[..|lines| - 1]);
      var n := HeaderNumber(lines[|lines| - 1]);
      if n != "" then init + [n] else init
  }

  lemma {:induction false} FoldNumbers(lines: seq<string>)
    ensures Numbers(Fold(lines).rows) + Numbers(Flushed(Fold(lines).current)) == HeaderNumbers(lines)
    decreases |lines|
  {
    if lines != [] {
      var init := lines[..|lines| - 1];
      var raw := lines[|lines| - 1];
      FoldNumbers(init);
      var st := Fold(init);
      var line := Trim(raw);
      if line != "" && StartsWith(line, Header) {
        assert Numbers(st.rows + Flushed(st.current)) == Numbers(st.rows) + Numbers(Flushed(st.current));
      } else if line != "" && st.current.Some? && ColonIndex(line) >= 0 {
        ApplyFieldFrame(st.current.value, Lower(Trim(BeforeColon(line))), Trim(AfterColon(line)));
      }
    }
  }

  /** The parser emits one row per header line with a non-blank number, in the order of the
      export; rows without a number and lines before the first header leave no trace. */
  lemma ParsedNumbers(lines: seq<string>)
    ensures Numbers(ParseSummary(lines)) == HeaderNumbers(lines)
  {
    FoldNumbers(lines);
    var st := Fold(lines);
    assert Numbers(st.rows + Flushed(st.current)) == Numbers(st.rows) + Numbers(Flushed(st.current));
  }

  lemma {:induction false} FoldClean(lines: seq<string>)
    ensures forall r :: r in Fold(lines).rows ==> CleanRow(r) && r.eudractNumber != ""
    ensures Fold(lines).current.Some? ==> CleanRow(Fold(lines).current.value)
    decreases |lines|
  {
    if lines != [] {
      var init := lines[..|lines| - 1];
      var raw := lines[|lines| - 1];
      FoldClean(init);
      var st := Fold(init);
      var line := Trim(raw);
      if line != "" && StartsWith(line, Header) {
        TrimIdempotent(AfterColon(line));
      } else if line != "" && st.current.Some? && ColonIndex(line) >= 0 {
        TrimIdempotent(AfterColon(line));
        ApplyFieldClean(st.current.value, Lower(Trim(BeforeColon(line))), Trim(AfterColon(line)));
      }
    }
  }

  /** Every parsed row has a non-blank stripped number and stripped, non-blank list items. */
  lemma ParsedRowsClean(lines: seq<string>)
    ensures forall r :: r in ParseSummary(lines) ==> CleanRow(r) && r.eudractNumber != ""
  {
    FoldClean(lines);
  }

  // ---------------------------------------------------------------------------
  // _normalize_status
  // ---------------------------------------------------------------------------

  /** The first ')' at or after k (|p| when there is none). */
  function CloseFrom(p: string, k: nat): (j: nat)
    requires k <= |p|
    ensures k <= j <= |p|
    ensures forall m :: k <= m < j ==> p[m] != ')'
    ensures j == |p| || p[j] == ')'
    decreases |p| - k
  {
    if k == |p| || p[k] == ')' then k else CloseFrom(p, k + 1)
  }

  /** STATUS_RE, `\(([^)]+)\)`, matches at i: a '(' there, and the first ')' after it
      comes after at least one character. */
  predicate GroupAt(p: string, i: nat) {
    i < |p| && p[i] == '(' && CloseFrom(p, i + 1) < |p| && CloseFrom(p, i + 1) >= i + 2
  }

  /** STATUS_RE.search: the leftmost position at or after `from` where the pattern matches. */
  function SearchGroup(p: string, from: nat): (r: Option<nat>)
    requires from <= |p|
    ensures r.Some? ==> from <= r.value && GroupAt(p, r.value)
    ensures r.Some? ==> forall j: nat :: from <= j < r.value ==> !GroupAt(p, j)
    ensures r.None? ==> forall j: nat :: from <= j ==> !GroupAt(p, j)
    decreases |p| - from
  {
    if from == |p| then None
    else if GroupAt(p, from) then Some(from)
    else SearchGroup(p, from + 1)
  }

  /** `match.group(1)` of the search, when there is a match. */
  function StatusGroup(p: string): Option<string> {
    match SearchGroup(p, 0)
    case None => None
    case Some(i) => Some(p[i + 1..CloseFrom(p, i + 1)])
  }

  /** `_clean(group).upper().replace(" ", "_")` ("" without a match). */
  function ProtocolStatus(p: string): string {
    match StatusGroup(p)
    case None => ""
    case Some(g) => SpacesToUnderscores(Upper(Trim(g)))
  }

  /** The group is a non-empty, ')'-free text that stands between parentheses in the
      protocol. */
  lemma StatusGroupShape(p: string)
    ensures StatusGroup(p).Some? ==>
              var g := StatusGroup(p).value;
              g != "" && ')' !in g && exists i :: OccursAt(p, "(" + g + ")", i)
  {
    if SearchGroup(p, 0).Some? {
      var i := SearchGroup(p, 0).value;
      var j := CloseFrom(p, i + 1);
      var g := p[i + 1..j];
      assert p[i..j + 1] == [p[i]] + g + [p[j]];
      assert OccursAt(p, "(" + g + ")", i);
    }
  }

  /** A status is stripped: its ends are not spaces. */
  lemma ProtocolStatusStripped(p: string)
    ensures Trim(ProtocolStatus(p)) == ProtocolStatus(p)
  {
    var s := ProtocolStatus(p);
    if StatusGroup(p).Some? && s != "" {
      var t := Trim(StatusGroup(p).value);
      assert !IsSpace(s[0]) && !IsSpace(s[|s| - 1]) by {
        assert s[0] == (if Upper(t)[0] == ' ' then '_' else Upper(t)[0]);
        assert Upper(t)[0] == UpperChar(t[0]);
        assert s[|s| - 1] == (if Upper(t)[|t| - 1] == ' ' then '_' else Upper(t)[|t| - 1]);
        assert Upper(t)[|t| - 1] == UpperChar(t[|t| - 1]);
      }
    }
    TrimOfTrimmed(s);
  }

  function ProtocolStatuses(protocols: seq<string>): seq<string> {
    seq(|protocols|, k requires 0 <= k < |protocols| => ProtocolStatus(protocols[k]))
  }

  /** The distinct non-empty statuses, in first-seen order. */
  function Statuses(protocols: seq<string>): seq<string> {
    Uniqued(ClinicalTrials.Present(ProtocolStatuses(protocols)))
  }

  /** The status text of a list of distinct statuses. */
  function StatusText(statuses: seq<string>): string {
    if statuses == [] then "NA"
    else if |statuses| == 1 then statuses[0]
    else Join(SortStrings(statuses), "/")
  }

  /** _normalize_status: "NA" without protocols or statuses, the one status, or the distinct
      statuses sorted and joined by "/". */
  function NormalizeStatus(protocols: seq<string>): string {
    if protocols == [] then "NA" else StatusText(Statuses(protocols))
  }

  /** _normalize_status as the source writes it. */
  method NormalizeStatusOf(protocols: seq<string>) returns (r: string)
    ensures r == NormalizeStatus(protocols)
  {
    if protocols == [] {
      return "NA";
    }
    var all := ProtocolStatuses(protocols);
    var statuses: seq<string> := [];
    for i := 0 to |protocols|
      invariant statuses == ClinicalTrials.Present(all[..i])
    {
      ClinicalTrials.PresentStep(all, i);
      var status := ProtocolStatus(protocols[i]);
      if status != "" {
        statuses := statuses + [status];
      }
    }
    assert all[..|protocols|] == all;
    var distinct := Uniq(statuses);
    if distinct == [] {
      r := "NA";
    } else if |distinct| == 1 {
      r := distinct[0];
    } else {
      r := Join(SortStrings(distinct), "/");
    }
  }

  /** Items that are non-empty and pairwise different. */
  predicate DistinctItems(u: seq<string>) {
    (forall k :: 0 <= k < |u| ==> u[k] != "") &&
    (forall i, j :: 0 <= i < j < |u| ==> u[i] != u[j])
  }

  /** The distinct statuses are exactly the non-empty statuses of the protocols. */
  lemma DistinctStatuses(protocols: seq<string>)
    ensures DistinctItems(Statuses(protocols))
    ensures forall x :: x in Statuses(protocols) <==> x != "" && x in ProtocolStatuses(protocols)
  {
    var all := ProtocolStatuses(protocols);
    var present := ClinicalTrials.Present(all);
    var u := Statuses(protocols);
    ClinicalTrials.PresentMembers(all);
    UniquedSpec(present);
    forall x ensures TrimsTo(present, x) <==> x in present {
      if TrimsTo(present, x) {
        var v :| v in present && Trim(v) == x;
        var k :| 0 <= k < |all| && all[k] == v;
        ProtocolStatusStripped(protocols[k]);
      }
      if x in present {
        var k :| 0 <= k < |all| && all[k] == x;
        ProtocolStatusStripped(protocols[k]);
      }
    }
    forall k | 0 <= k < |u| ensures u[k] != "" {
      assert u[k] in u;
    }
  }

  /** Each status shows in the text. */
  lemma StatusTextListed(u: seq<string>, x: string)
    requires x in u
    ensures Contains(StatusText(u), x)
  {
    if |u| == 1 {
      assert u[0] == x;
      assert OccursAt(x, x, 0);
      ContainsAt(x, x, 0);
    } else {
      var sorted := SortStrings(u);
      assert x in multiset(sorted);
      var j :| 0 <= j < |sorted| && sorted[j] == x;
      JoinContainsItems(sorted, "/", j);
    }
  }

  /** Two or more non-empty items joined by "/" are longer than two characters. */
  lemma {:induction false} JoinedLength(items: seq<string>)
    requires |items| >= 2 && forall k :: 0 <= k < |items| ==> items[k] != ""
    ensures |Join(items, "/")| >= 3
  {
    var rest := items[1..];
    JoinEmptyIff(rest, "/");
  }

  /** The text is never empty, and it is "NA" exactly when "NA" is the only status. */
  lemma StatusTextNa(u: seq<string>)
    requires DistinctItems(u)
    ensures StatusText(u) != ""
    ensures StatusText(u) == "NA" <==> forall x :: x in u ==> x == "NA"
  {
    if |u| >= 2 {
      var sorted := SortStrings(u);
      forall k | 0 <= k < |sorted| ensures sorted[k] != "" {
        assert sorted[k] in multiset(u);
      }
      JoinedLength(sorted);
      assert u[0] in u && u[1] in u;
    } else if |u| == 1 {
      assert u[0] in u;
    }
  }

  lemma SortedTail(a: seq<string>)
    requires a != [] && SortedLex(a)
    ensures SortedLex(a[1..]) && multiset(a[1..]) == multiset(a) - multiset{a[0]}
    ensures forall x :: x in a ==> LexLe(a[0], x)
  {
    assert a == [a[0]] + a[1..];
    forall x | x in a ensures LexLe(a[0], x) {
      var i :| 0 <= i < |a| && a[i] == x;
      if i == 0 {
        LexLeReflexive(x);
      }
    }
  }

  /** Sorted rearrangements of the same items are the same list. */
  lemma {:induction false} SortedUnique(a: seq<string>, b: seq<string>)
    requires SortedLex(a) && SortedLex(b) && multiset(a) == multiset(b)
    ensures a == b
    decreases |a|
  {
    assert |a| == |multiset(a)| == |b|;
    if a != [] {
      SortedTail(a);
      SortedTail(b);
      assert a[0] in multiset(b) && b[0] in multiset(a);
      LexLeAntisymmetric(a[0], b[0]);
      SortedUnique(a[1..], b[1..]);
      assert a == [a[0]] + a[1..] && b == [b[0]] + b[1..];
    }
  }

  /** A list without repeats holds each of its items once. */
  lemma {:induction false} DistinctCount(a: seq<string>, x: string)
    requires forall i, j :: 0 <= i < j < |a| ==> a[i] != a[j]
    ensures multiset(a)[x] == if x in a then 1 else 0
    decreases |a|
  {
    if a != [] {
      assert a == [a[0]] + a[1..];
      DistinctCount(a[1..], x);
      if x == a[0] {
        assert x !in a[1..];
      }
    }
  }

  /** The text depends only on which statuses there are, not on their order. */
  lemma StatusTextSameItems(u: seq<string>, v: seq<string>)
    requires DistinctItems(u) && DistinctItems(v)
    requires forall x :: x in u <==> x in v
    ensures StatusText(u) == StatusText(v)
  {
    forall x ensures multiset(u)[x] == multiset(v)[x] {
      DistinctCount(u, x);
      DistinctCount(v, x);
    }
    assert multiset(u) == multiset(v);
    SortStringsSorted(u);
    SortStringsSorted(v);
    SortedUnique(SortStrings(u), SortStrings(v));
    if |u| == 1 {
      assert |v| == |multiset(v)| == |multiset(u)| == 1;
      assert u[0] in v;
    }
  }

  /** Every status read from a protocol shows up in the normalised status. */
  lemma StatusListed(protocols: seq<string>, k: nat)
    requires k < |protocols| && ProtocolStatus(protocols[k]) != ""
    ensures Contains(NormalizeStatus(protocols), ProtocolStatus(protocols[k]))
  {
    DistinctStatuses(protocols);
    assert ProtocolStatuses(protocols)[k] == ProtocolStatus(protocols[k]);
    StatusTextListed(Statuses(protocols), ProtocolStatus(protocols[k]));
  }

  /** The status is never empty, and it is "NA" exactly when no protocol carries a status
      other than "NA" itself. */
  lemma StatusNa(protocols: seq<string>)
    ensures NormalizeStatus(protocols) != ""
    ensures NormalizeStatus(protocols) == "NA" <==>
              forall k :: 0 <= k < |protocols| ==> ProtocolStatus(protocols[k]) in {"", "NA"}
  {
    var u := Statuses(protocols);
    var all := ProtocolStatuses(protocols);
    DistinctStatuses(protocols);
    StatusTextNa(u);
    if forall x :: x in u ==> x == "NA" {
      forall k | 0 <= k < |protocols| ensures ProtocolStatus(protocols[k]) in {"", "NA"} {
        assert all[k] == ProtocolStatus(protocols[k]);
        if all[k] != "" {
          assert all[k] in u;
        }
      }
    }
    if forall k :: 0 <= k < |protocols| ==> ProtocolStatus(protocols[k]) in {"", "NA"} {
      forall x | x in u ensures x == "NA" {
        var k :| 0 <= k < |all| && all[k] == x;
        assert ProtocolStatus(protocols[k]) in {"", "NA"};
      }
    }
  }

  /** The normalised status depends only on which protocols there are, not on their order. */
  lemma StatusIgnoresOrder(ps: seq<string>, qs: seq<string>)
    requires multiset(ps) == multiset(qs)
    ensures NormalizeStatus(ps) == NormalizeStatus(qs)
  {
    assert |ps| == |multiset(ps)| == |qs|;
    DistinctStatuses(ps);
    DistinctStatuses(qs);
    var a := ProtocolStatuses(ps);
    var b := ProtocolStatuses(qs);
    forall x ensures x in a <==> x in b {
      if x in a {
        var k :| 0 <= k < |a| && a[k] == x;
        assert ps[k] in multiset(qs);
        var m :| 0 <= m < |qs| && qs[m] == ps[k];
        assert b[m] == x;
      }
      if x in b {
        var k :| 0 <= k < |b| && b[k] == x;
        assert qs[k] in multiset(ps);
        var m :| 0 <= m < |ps| && ps[m] == qs[k];
        assert a[m] == x;
      }
    }
    StatusTextSameItems(Statuses(ps), Statuses(qs));
  }

  lemma OngoingExample()
    ensures ProtocolStatus("FR(Ongoing)") == "ONGOING"
  {
    var p := "FR(Ongoing)";
    assert p[0] == 'F' && p[1] == 'R' && p[2] == '(';
    assert !GroupAt(p, 0) && !GroupAt(p, 1);
    assert CloseFrom(p, 3) == 10;
    assert GroupAt(p, 2);
    assert SearchGroup(p, 0) == Some(2);
    assert p[3..10] == "Ongoing";
    TrimOfTrimmed("Ongoing");
  }

  lemma CompletedExample()
    ensures ProtocolStatus("DE(Completed)") == "COMPLETED"
  {
    var p := "DE(Completed)";
    assert p[0] == 'D' && p[1] == 'E' && p[2] == '(';
    assert !GroupAt(p, 0) && !GroupAt(p, 1);
    assert CloseFrom(p, 3) == 12;
    assert GroupAt(p, 2);
    assert SearchGroup(p, 0) == Some(2);
    assert p[3..12] == "Completed";
    TrimOfTrimmed("Completed");
  }

  /** The status of the registry's own example: "ONGOING" and "COMPLETED" both show. */
  lemma StatusExample()
    ensures Contains(NormalizeStatus(["FR(Ongoing)", "DE(Completed)"]), "ONGOING")
    ensures Contains(NormalizeStatus(["FR(Ongoing)", "DE(Completed)"]), "COMPLETED")
  {
    var ps := ["FR(Ongoing)", "DE(Completed)"];
    OngoingExample();
    CompletedExample();
    StatusListed(ps, 0);
    StatusListed(ps, 1);
  }

  // ---------------------------------------------------------------------------
  // _build_classification_text
  // ---------------------------------------------------------------------------

  /** Title, medical conditions, diseases and sponsor, the empty ones left out, joined by
      spaces. */
  function ClassificationText(row: SummaryRow): string {
    Join(ClinicalTrials.Present([row.fullTitle, Join(row.medicalConditions, " "),
                                 Join(row.diseases, " "), row.sponsorName]), " ")
  }

  /** The text carries the title, the sponsor, every medical condition and every disease,
      and it is empty only when all four parts are. */
  lemma ClassificationTextMentions(row: SummaryRow)
    ensures row.fullTitle != "" ==> Contains(ClassificationText(row), row.fullTitle)
    ensures row.sponsorName != "" ==> Contains(ClassificationText(row), row.sponsorName)
    ensures forall k :: 0 <= k < |row.medicalConditions| ==>
              Contains(ClassificationText(row), row.medicalConditions[k])
    ensures forall k :: 0 <= k < |row.diseases| ==>
              Contains(ClassificationText(row), row.diseases[k])
    ensures ClassificationText(row) == "" <==>
              row.fullTitle == "" && row.sponsorName == "" &&
              Join(row.medicalConditions, " ") == "" && Join(row.diseases, " ") == ""
  {
    var parts := [row.fullTitle, Join(row.medicalConditions, " "), Join(row.diseases, " "),
                  row.sponsorName];
    var present := ClinicalTrials.Present(parts);
    var text := ClassificationText(row);
    ClinicalTrials.PresentMembers(parts);
    forall k | 0 <= k < |present| ensures present[k] != "" {
      assert present[k] in present;
    }
    JoinEmptyIff(present, " ");
    forall x | x in present ensures Contains(text, x) {
      var k :| 0 <= k < |present| && present[k] == x;
      JoinContainsItems(present, " ", k);
    }
    assert row.fullTitle == parts[0] && row.sponsorName == parts[3];
    forall k | 0 <= k < |row.medicalConditions|
      ensures Contains(text, row.medicalConditions[k])
    {
      var joined := Join(row.medicalConditions, " ");
      JoinContainsItems(row.medicalConditions, " ", k);
      if joined == "" {
        assert row.medicalConditions[k] == "";
        assert OccursAt(text, "", 0);
        ContainsAt(text, "", 0);
      } else {
        assert joined == parts[1];
        ContainsTransitive(text, joined, row.medicalConditions[k]);
      }
    }
    forall k | 0 <= k < |row.diseases| ensures Contains(text, row.diseases[k]) {
      var joined := Join(row.diseases, " ");
      JoinContainsItems(row.diseases, " ", k);
      if joined == "" {
        assert row.diseases[k] == "";
        assert OccursAt(text, "", 0);
        ContainsAt(text, "", 0);
      } else {
        assert joined == parts[2];
        ContainsTransitive(text, joined, row.diseases[k]);
      }
    }
    if present != [] {
      assert present[0] in present;
    }
    if text == "" {
      assert present == [];
      forall k | 0 <= k < 4 ensures parts[k] == "" {
        assert parts[k] in parts;
        assert parts[k] !in present;
      }
      assert parts[1] == Join(row.medicalConditions, " ") && parts[2] == Join(row.diseases, " ");
    }
    if row.fullTitle == "" && row.sponsorName == "" &&
       Join(row.medicalConditions, " ") == "" && Join(row.diseases, " ") == "" {
      assert forall x :: x in parts ==> x == "";
      assert present == [];
      assert text == Join([], " ");
    }
  }

  // ---------------------------------------------------------------------------
  // fetch_trials_euctr_pdac: the merge by EudraCT number
  // ---------------------------------------------------------------------------

  /** The `merged` dict: its keys in insertion order (the order of merged.values()) and its
      entries. */
  datatype Merged = Merged(keys: seq<string>, entries: map<string, SummaryRow>)

  /** One row of the result stream: skipped without a number, stored when its number is new,
      merged into the stored row otherwise. */
  function MergeStep(m: Merged, row: SummaryRow): Merged {
    var key := Trim(row.eudractNumber);
    if key == "" then m
    else if key !in m.entries then Merged(m.keys + [key], m.entries[key := row])
    else Merged(m.keys, m.entries[key := MergeInto(m.entries[key], row)])
  }

  /** The entry of a number after one more row. */
  lemma MergeStepEntry(m: Merged, row: SummaryRow, key: string)
    requires key in MergeStep(m, row).entries
    ensures HasKey(row, key) && key != "" && key in m.entries ==>
              MergeStep(m, row).entries[key] == MergeInto(m.entries[key], row)
    ensures HasKey(row, key) && key !in m.entries ==> MergeStep(m, row).entries[key] == row
    ensures !HasKey(row, key) ==> key in m.entries && MergeStep(m, row).entries[key] == m.entries[key]
  {
  }

  function MergeRows(rows: seq<SummaryRow>): Merged
    decreases |rows|
  {
    if rows == [] then Merged([], map[])
    else MergeStep(MergeRows(rows[..|rows| - 1]), rows[|rows| - 1])
  }

  lemma MergeRowsStep(rows: seq<SummaryRow>, i: nat)
    requires i < |rows|
    ensures MergeRows(rows[..i + 1]) == MergeStep(MergeRows(rows[..i]), rows[i])
  {
    assert rows[..i + 1][..i] == rows[..i];
  }

  /** The row's stripped number is `key`. */
  predicate HasKey(row: SummaryRow, key: string) {
    Trim(row.eudractNumber) == key
  }

  /** The merged keys are _uniq of the rows' numbers: each stripped non-blank number once, in
      first-seen order, and exactly the keys of the entries. */
  lemma {:induction false} MergedKeys(rows: seq<SummaryRow>)
    ensures MergeRows(rows).keys == Uniqued(Numbers(rows))
    ensures forall key :: key in MergeRows(rows).entries <==> key in MergeRows(rows).keys
    decreases |rows|
  {
    if rows != [] {
      var i := |rows| - 1;
      MergedKeys(rows[..i]);
      var ns := Numbers(rows);
      assert ns[..i] == Numbers(rows[..i]);
      UniqStep(ns, i);
      assert ns[..i + 1] == ns;
    }
  }

  /** A number is a key exactly when some row carries it (stripped, non-blank). */
  lemma MergedKeyIff(rows: seq<SummaryRow>, key: string)
    ensures key in MergeRows(rows).entries <==>
              key != "" && exists j :: 0 <= j < |rows| && HasKey(rows[j], key)
  {
    MergedKeys(rows);
    UniquedSpec(Numbers(rows));
    if TrimsTo(Numbers(rows), key) {
      var v :| v in Numbers(rows) && Trim(v) == key;
      var j :| 0 <= j < |rows| && Numbers(rows)[j] == v;
    }
    if exists j :: 0 <= j < |rows| && HasKey(rows[j], key) {
      var j :| 0 <= j < |rows| && HasKey(rows[j], key);
      assert Numbers(rows)[j] in Numbers(rows);
    }
  }

  /** Everything but the lists and the link. */
  predicate SameScalars(a: SummaryRow, b: SummaryRow) {
    a.eudractNumber == b.eudractNumber && a.sponsorName == b.sponsorName &&
    a.sponsorProtocolNumber == b.sponsorProtocolNumber && a.fullTitle == b.fullTitle &&
    a.startDate == b.startDate && a.populationAge == b.populationAge && a.gender == b.gender
  }

  /** The entry of a number keeps the number, sponsor, title, dates, age and gender of the
      first row that carries it. */
  lemma {:induction false} MergedFirst(rows: seq<SummaryRow>, i: nat)
    requires i < |rows| && Trim(rows[i].eudractNumber) != ""
    requires forall j :: 0 <= j < i ==> !HasKey(rows[j], Trim(rows[i].eudractNumber))
    ensures Trim(rows[i].eudractNumber) in MergeRows(rows).entries
    ensures SameScalars(MergeRows(rows).entries[Trim(rows[i].eudractNumber)], rows[i])
    decreases |rows|
  {
    var key := Trim(rows[i].eudractNumber);
    var n := |rows| - 1;
    var init := rows[..n];
    assert MergeRows(rows) == MergeStep(MergeRows(init), rows[n]);
    if n == i {
      MergedKeyIff(init, key);
      forall j | 0 <= j < |init| ensures !HasKey(init[j], key) {
        assert init[j] == rows[j];
      }
    } else {
      assert init[i] == rows[i];
      forall j | 0 <= j < i ensures !HasKey(init[j], key) {
        assert init[j] == rows[j];
      }
      MergedFirst(init, i);
      MergedKeyIff(init, key);
      MergeStepEntry(MergeRows(init), rows[n], key);
    }
  }

  /** The entry's number strips to its key. */
  lemma {:induction false} MergedNumbers(rows: seq<SummaryRow>)
    ensures forall key :: key in MergeRows(rows).entries ==>
              HasKey(MergeRows(rows).entries[key], key)
    decreases |rows|
  {
    if rows != [] {
      MergedNumbers(rows[..|rows| - 1]);
    }
  }

  /** The list fields, by position: medical conditions, diseases, trial protocols. */
  function ListField(row: SummaryRow, f: nat): seq<string> {
    if f == 0 then row.medicalConditions else if f == 1 then row.diseases else row.trialProtocols
  }

  /** _uniq of two clean lists holds exactly the items of either. */
  lemma UniquedUnion(a: seq<string>, b: seq<string>)
    requires CleanItems(a) && CleanItems(b)
    ensures CleanItems(Uniqued(a + b))
    ensures forall x :: x in Uniqued(a + b) <==> x in a || x in b
  {
    UniquedSpec(a + b);
    forall x ensures TrimsTo(a + b, x) && x != "" <==> x in a || x in b {
      if TrimsTo(a + b, x) {
        var v :| v in a + b && Trim(v) == x;
      }
      if x in a || x in b {
        assert x in a + b;
      }
    }
  }

  /** Some row with the number lists x in field f. */
  ghost predicate InSomeRow(rows: seq<SummaryRow>, key: string, f: nat, x: string) {
    exists j :: 0 <= j < |rows| && HasKey(rows[j], key) && x in ListField(rows[j], f)
  }

  lemma InSomeRowSnoc(rows: seq<SummaryRow>, key: string, f: nat, x: string)
    requires rows != []
    ensures var n := |rows| - 1;
            InSomeRow(rows, key, f, x) <==>
              InSomeRow(rows[..n], key, f, x) || (HasKey(rows[n], key) && x in ListField(rows[n], f))
  {
    InSomeRowInit(rows, key, f, x);
    InSomeRowSplit(rows, key, f, x);
  }

  lemma InSomeRowInit(rows: seq<SummaryRow>, key: string, f: nat, x: string)
    requires rows != []
    ensures InSomeRow(rows[..|rows| - 1], key, f, x) ==> InSomeRow(rows, key, f, x)
  {
    var n := |rows| - 1;
    if InSomeRow(rows[..n], key, f, x) {
      var j :| 0 <= j < n && HasKey(rows[..n][j], key) && x in ListField(rows[..n][j], f);
      assert rows[..n][j] == rows[j];
    }
  }

  lemma InSomeRowSplit(rows: seq<SummaryRow>, key: string, f: nat, x: string)
    requires rows != []
    ensures var n := |rows| - 1;
            InSomeRow(rows, key, f, x) ==>
              InSomeRow(rows[..n], key, f, x) || (HasKey(rows[n], key) && x in ListField(rows[n], f))
  {
    var n := |rows| - 1;
    if InSomeRow(rows, key, f, x) {
      var j :| 0 <= j < |rows| && HasKey(rows[j], key) && x in ListField(rows[j], f);
      if j < n {
        var init := rows[..n];
        assert init[j] == rows[j];
        assert HasKey(init[j], key) && x in ListField(init[j], f);
      }
    }
  }

  /** `xs` holds exactly the items of field f over the rows with the number. */
  ghost predicate ListSpec(rows: seq<SummaryRow>, key: string, f: nat, xs: seq<string>) {
    CleanItems(xs) && forall x :: x in xs <==> InSomeRow(rows, key, f, x)
  }

  lemma ListSpecSnoc(rows: seq<SummaryRow>, key: string, f: nat, prev: seq<string>, xs: seq<string>)
    requires rows != [] && ListSpec(rows[..|rows| - 1], key, f, prev) && CleanItems(xs)
    requires HasKey(rows[|rows| - 1], key) ==>
               forall x :: x in xs <==> x in prev || x in ListField(rows[|rows| - 1], f)
    requires !HasKey(rows[|rows| - 1], key) ==> xs == prev
    ensures ListSpec(rows, key, f, xs)
  {
    forall x ensures x in xs <==> InSomeRow(rows, key, f, x) {
      InSomeRowSnoc(rows, key, f, x);
    }
  }

  /** With clean rows (as the parser makes them), an entry's list holds exactly the items of
      that list over every row with its number. */
  lemma {:induction false} MergedLists(rows: seq<SummaryRow>, key: string, f: nat)
    requires f < 3 && forall j :: 0 <= j < |rows| ==> CleanRow(rows[j])
    requires key in MergeRows(rows).entries
    ensures CleanItems(ListField(MergeRows(rows).entries[key], f))
    ensures forall x :: x in ListField(MergeRows(rows).entries[key], f) <==> InSomeRow(rows, key, f, x)
    decreases |rows|
  {
    var n := |rows| - 1;
    var init := rows[..n];
    var row := rows[n];
    var m := MergeRows(init);
    var xs := ListField(MergeRows(rows).entries[key], f);
    assert CleanRow(row);
    forall j | 0 <= j < |init| ensures CleanRow(init[j]) {
      assert init[j] == rows[j];
    }
    assert MergeRows(rows) == MergeStep(m, row);
    var prev: seq<string> := [];
    if key in m.entries {
      MergedLists(init, key, f);
      prev := ListField(m.entries[key], f);
    } else {
      MergedKeyIff(init, key);
      forall x | InSomeRow(init, key, f, x) ensures false {
      }
    }
    MergeStepEntry(m, row, key);
    MergedKeyIff(rows, key);
    if HasKey(row, key) && key in m.entries {
      var e := m.entries[key];
      assert xs == Uniqued(prev + ListField(row, f)) by {
        if f == 0 {
        } else if f == 1 {
        } else {
        }
      }
      UniquedUnion(prev, ListField(row, f));
    }
    ListSpecSnoc(rows, key, f, prev, xs);
  }

  /** No row with the number has a link. */
  ghost predicate NoLink(rows: seq<SummaryRow>, key: string) {
    forall j :: 0 <= j < |rows| && HasKey(rows[j], key) ==> rows[j].link == ""
  }

  /** `link` is the link of the first row with the number that has one. */
  ghost predicate FirstLink(rows: seq<SummaryRow>, key: string, link: string) {
    exists j :: 0 <= j < |rows| && HasKey(rows[j], key) && rows[j].link == link &&
                NoLink(rows[..j], key)
  }

  lemma LinkSnoc(rows: seq<SummaryRow>, key: string, link: string)
    requires rows != []
    ensures var n := |rows| - 1;
            (NoLink(rows, key) <==> NoLink(rows[..n], key) && (HasKey(rows[n], key) ==> rows[n].link == "")) &&
            (FirstLink(rows[..n], key, link) ==> FirstLink(rows, key, link)) &&
            (NoLink(rows[..n], key) && HasKey(rows[n], key) ==> FirstLink(rows, key, rows[n].link))
  {
    NoLinkSnoc(rows, key);
    FirstLinkKept(rows, key, link);
    var n := |rows| - 1;
    assert rows[..n] == rows[..n];
  }

  lemma NoLinkSnoc(rows: seq<SummaryRow>, key: string)
    requires rows != []
    ensures var n := |rows| - 1;
            NoLink(rows, key) <==> NoLink(rows[..n], key) && (HasKey(rows[n], key) ==> rows[n].link == "")
  {
    var n := |rows| - 1;
    var init := rows[..n];
    if NoLink(init, key) && (HasKey(rows[n], key) ==> rows[n].link == "") {
      forall j | 0 <= j < |rows| && HasKey(rows[j], key) ensures rows[j].link == "" {
        if j < n {
          assert init[j] == rows[j];
        }
      }
    }
    if NoLink(rows, key) {
      forall j | 0 <= j < n && HasKey(init[j], key) ensures init[j].link == "" {
        assert init[j] == rows[j];
      }
    }
  }

  lemma FirstLinkKept(rows: seq<SummaryRow>, key: string, link: string)
    requires rows != []
    ensures var n := |rows| - 1;
            (FirstLink(rows[..n], key, link) ==> FirstLink(rows, key, link)) &&
            (NoLink(rows[..n], key) && HasKey(rows[n], key) ==> FirstLink(rows, key, rows[n].link))
  {
    var n := |rows| - 1;
    var init := rows[..n];
    if FirstLink(init, key, link) {
      var j :| 0 <= j < n && HasKey(init[j], key) && init[j].link == link && NoLink(init[..j], key);
      assert init[j] == rows[j] && init[..j] == rows[..j];
    }
  }

  /** `link` is what the merge keeps: the first link of a row with the number, or "". */
  ghost predicate LinkSpec(rows: seq<SummaryRow>, key: string, link: string) {
    (link == "" ==> NoLink(rows, key)) && (link != "" ==> FirstLink(rows, key, link))
  }

  lemma LinkSpecSnoc(rows: seq<SummaryRow>, key: string, prev: string, link: string)
    requires rows != [] && LinkSpec(rows[..|rows| - 1], key, prev)
    requires link == if HasKey(rows[|rows| - 1], key) && prev == "" then rows[|rows| - 1].link else prev
    ensures LinkSpec(rows, key, link)
  {
    LinkSnoc(rows, key, link);
    LinkSnoc(rows, key, prev);
  }

  /** The entry's link is the first non-empty link among the rows with its number, or "" when
      none has one. */
  lemma {:induction false} MergedLink(rows: seq<SummaryRow>, key: string)
    requires key in MergeRows(rows).entries
    ensures LinkSpec(rows, key, MergeRows(rows).entries[key].link)
    decreases |rows|
  {
    var n := |rows| - 1;
    var init := rows[..n];
    var row := rows[n];
    var m := MergeRows(init);
    assert MergeRows(rows) == MergeStep(m, row);
    var prev := "";
    if key in m.entries {
      MergedLink(init, key);
      prev := m.entries[key].link;
    } else {
      MergedKeyIff(init, key);
      forall j | 0 <= j < |init| ensures !HasKey(init[j], key) {
      }
    }
    MergeStepEntry(m, row, key);
    MergedKeyIff(rows, key);
    LinkSpecSnoc(rows, key, prev, MergeRows(rows).entries[key].link);
  }

  // ---------------------------------------------------------------------------
  // The merge loop itself, over the row objects the parser returned
  // ---------------------------------------------------------------------------

  /** The merge loop against the merge state `spec` after the first i row objects: the key
      list and the dict agree with it; each stored object is the first object with its number
      (at names its position) and holds the merged entry; the objects not yet visited are
      untouched. */
  ghost predicate Merging(rows: seq<EuctrSummaryRow>, vals: seq<SummaryRow>, i: nat,
                          keys: seq<string>, merged: map<string, EuctrSummaryRow>,
                          at: map<string, nat>, spec: Merged)
    reads rows
  {
    |vals| == |rows| && i <= |rows| &&
    keys == spec.keys && merged.Keys == at.Keys == spec.entries.Keys && "" !in spec.entries &&
    (forall k :: i <= k < |rows| ==> rows[k].Value() == vals[k]) &&
    (forall key :: key in at ==>
       at[key] < i && merged[key] == rows[at[key]] && HasKey(vals[at[key]], key) &&
       rows[at[key]].Value() == spec.entries[key])
  }

  /** Merging, from its parts (keeps the heap reasoning of the loop steps small). */
  lemma MergingIntro(rows: seq<EuctrSummaryRow>, vals: seq<SummaryRow>, i: nat,
                     keys: seq<string>, merged: map<string, EuctrSummaryRow>,
                     at: map<string, nat>, spec: Merged)
    requires |vals| == |rows| && i <= |rows|
    requires keys == spec.keys && merged.Keys == at.Keys == spec.entries.Keys
    requires "" !in spec.entries
    requires forall k :: i <= k < |rows| ==> rows[k].Value() == vals[k]
    requires forall key :: key in at ==>
               at[key] < i && merged[key] == rows[at[key]] && HasKey(vals[at[key]], key)
    requires forall key :: key in at ==> rows[at[key]].Value() == spec.entries[key]
    ensures Merging(rows, vals, i, keys, merged, at, spec)
  {
  }

  /** A row without a number leaves the merge as it was. */
  lemma MergingSkip(rows: seq<EuctrSummaryRow>, vals: seq<SummaryRow>, i: nat, keys: seq<string>,
                    merged: map<string, EuctrSummaryRow>, at: map<string, nat>, spec: Merged)
    requires i < |rows| && Merging(rows, vals, i, keys, merged, at, spec)
    requires Trim(rows[i].eudractNumber) == ""
    ensures Merging(rows, vals, i + 1, keys, merged, at, MergeStep(spec, vals[i]))
  {
    assert rows[i].Value() == vals[i];
  }

  /** The stored objects after a row with a new number `key` is stored. */
  lemma StoreEntries(rows: seq<EuctrSummaryRow>, vals: seq<SummaryRow>, i: nat, key: string,
                     merged: map<string, EuctrSummaryRow>, at: map<string, nat>, spec: Merged)
    requires i < |rows| == |vals| && rows[i].Value() == vals[i] && HasKey(vals[i], key)
    requires key != "" && key !in at && at.Keys == spec.entries.Keys
    requires forall other :: other in at ==>
               at[other] < i && other in merged && merged[other] == rows[at[other]] &&
               HasKey(vals[at[other]], other) && rows[at[other]].Value() == spec.entries[other]
    ensures forall other :: other in at[key := i] ==>
              at[key := i][other] < i + 1 && merged[key := rows[i]][other] == rows[at[key := i][other]] &&
              HasKey(vals[at[key := i][other]], other) &&
              rows[at[key := i][other]].Value() == MergeStep(spec, vals[i]).entries[other]
  {
    forall other | other in at[key := i]
      ensures at[key := i][other] < i + 1 && merged[key := rows[i]][other] == rows[at[key := i][other]] &&
              HasKey(vals[at[key := i][other]], other) &&
              rows[at[key := i][other]].Value() == MergeStep(spec, vals[i]).entries[other]
    {
      MergeStepEntry(spec, vals[i], other);
    }
  }

  /** Storing a new number appends it to the keys and adds it to every map's domain. */
  lemma StoreKeys(spec: Merged, row: SummaryRow, key: string, merged: map<string, EuctrSummaryRow>,
                  at: map<string, nat>, r: EuctrSummaryRow, i: nat)
    requires HasKey(row, key) && key != "" && key !in spec.entries
    requires merged.Keys == at.Keys == spec.entries.Keys && "" !in spec.entries
    ensures MergeStep(spec, row).keys == spec.keys + [key]
    ensures merged[key := r].Keys == at[key := i].Keys == MergeStep(spec, row).entries.Keys
    ensures "" !in MergeStep(spec, row).entries
  {
  }

  /** A row with a new number is stored as it is, at the end of the key list. */
  lemma MergingStore(rows: seq<EuctrSummaryRow>, vals: seq<SummaryRow>, i: nat, key: string,
                     keys: seq<string>, merged: map<string, EuctrSummaryRow>,
                     at: map<string, nat>, spec: Merged)
    requires i < |rows| && Merging(rows, vals, i, keys, merged, at, spec)
    requires HasKey(vals[i], key) && key != "" && key !in merged
    ensures Merging(rows, vals, i + 1, keys + [key], merged[key := rows[i]], at[key := i],
                    MergeStep(spec, vals[i]))
  {
    var spec' := MergeStep(spec, vals[i]);
    assert rows[i].Value() == vals[i];
    StoreKeys(spec, vals[i], key, merged, at, rows[i], i);
    StoreEntries(rows, vals, i, key, merged, at, spec);
    MergingIntro(rows, vals, i + 1, keys + [key], merged[key := rows[i]], at[key := i], spec');
  }

  /** A row with a known number merges into that number's entry and changes nothing else. */
  lemma AbsorbStep(m: Merged, row: SummaryRow, key: string)
    requires HasKey(row, key) && key != "" && key in m.entries
    ensures MergeStep(m, row).keys == m.keys
    ensures MergeStep(m, row).entries.Keys == m.entries.Keys
    ensures MergeStep(m, row).entries[key] == MergeInto(m.entries[key], row)
    ensures forall other :: other in m.entries && other != key ==>
              MergeStep(m, row).entries[other] == m.entries[other]
  {
    assert MergeStep(m, row) == Merged(m.keys, m.entries[key := MergeInto(m.entries[key], row)]);
  }

  /** A row with a known number is absorbed into the stored object, which no other key and no
      later row shares. */
  method MergingAbsorb(rows: seq<EuctrSummaryRow>, i: nat, key: string, keys: seq<string>,
                       merged: map<string, EuctrSummaryRow>, ghost vals: seq<SummaryRow>,
                       ghost at: map<string, nat>, ghost spec: Merged)
    requires Distinct(rows) && i < |rows| && Merging(rows, vals, i, keys, merged, at, spec)
    requires HasKey(vals[i], key) && key in merged
    modifies merged[key]
    ensures Merging(rows, vals, i + 1, keys, merged, at, MergeStep(spec, vals[i]))
  {
    var row := rows[i];
    var existing := merged[key];
    ghost var spec' := MergeStep(spec, vals[i]);
    ghost var j := at[key];
    assert existing == rows[j] && j < i;
    assert row != existing;
    ghost var before := existing.Value();
    assert before == spec.entries[key];
    assert row.Value() == vals[i];
    AbsorbStep(spec, vals[i], key);
    existing.Absorb(row);
    assert existing.Value() == spec'.entries[key];
    forall k | i + 1 <= k < |rows| ensures rows[k].Value() == vals[k] {
      assert rows[k] != existing;
    }
    forall other | other in at ensures rows[at[other]].Value() == spec'.entries[other] {
      if other != key {
        assert at[other] != j;
        assert rows[at[other]] != existing;
      }
    }
    MergingIntro(rows, vals, i + 1, keys, merged, at, spec');
  }

  /** One pass of the merge loop: skip a row without a number, store a new one, or absorb the
      row's lists and link into the stored object. */
  method MergeRow(rows: seq<EuctrSummaryRow>, i: nat, keys: seq<string>,
                  merged: map<string, EuctrSummaryRow>, ghost vals: seq<SummaryRow>,
                  ghost at: map<string, nat>, ghost spec: Merged)
    returns (keys': seq<string>, merged': map<string, EuctrSummaryRow>, ghost at': map<string, nat>)
    requires Distinct(rows) && i < |rows| && Merging(rows, vals, i, keys, merged, at, spec)
    modifies rows
    ensures Merging(rows, vals, i + 1, keys', merged', at', MergeStep(spec, vals[i]))
  {
    var row := rows[i];
    var key := Trim(row.eudractNumber);
    assert row.Value() == vals[i];
    keys', merged', at' := keys, merged, at;
    if key == "" {
      MergingSkip(rows, vals, i, keys, merged, at, spec);
    } else if key !in merged {
      MergingStore(rows, vals, i, key, keys, merged, at, spec);
      keys', merged', at' := keys + [key], merged[key := row], at[key := i];
    } else {
      assert merged[key] in rows by {
        assert merged[key] == rows[at[key]];
      }
      MergingAbsorb(rows, i, key, keys, merged, vals, at, spec);
    }
  }

  /** The merge loop of fetch_trials_euctr_pdac on the parsed row objects: the numbers in
      first-seen order, and for each the first object with that number, updated in place to
      the merged entry. */
  method MergeByNumber(rows: seq<EuctrSummaryRow>, ghost vals: seq<SummaryRow>)
    returns (keys: seq<string>, merged: map<string, EuctrSummaryRow>)
    requires Distinct(rows) && Mirrors(rows, vals)
    modifies rows
    ensures keys == MergeRows(vals).keys && merged.Keys == MergeRows(vals).entries.Keys
    ensures forall key :: key in merged ==>
              merged[key] in rows && merged[key].Value() == MergeRows(vals).entries[key]
  {
    keys, merged := [], map[];
    ghost var at: map<string, nat> := map[];
    ghost var spec := Merged([], map[]);
    var i := 0;
    while i < |rows|
      invariant Merging(rows, vals, i, keys, merged, at, spec)
      invariant spec == MergeRows(vals[..i])
      decreases |rows| - i
    {
      keys, merged, at := MergeRow(rows, i, keys, merged, vals, at, spec);
      MergeRowsStep(vals, i);
      spec := MergeStep(spec, vals[i]);
      i := i + 1;
    }
    assert vals[..i] == vals;
    forall key | key in merged ensures merged[key] in rows {
      assert merged[key] == rows[at[key]];
    }
  }

  // ---------------------------------------------------------------------------
  // fetch_trials_euctr_pdac: one study dict per merged row that passes the filter
  // ---------------------------------------------------------------------------

  const SearchLinkPrefix := "https://www.clinicaltrialsregister.eu/ctr-search/search?query=eudract_number:"

  /** The row's own link, or a register search for its number. */
  function TrialLink(row: SummaryRow): string {
    if row.link != "" then row.link else SearchLinkPrefix + row.eudractNumber
  }

  /** The brief summary's parts: age, gender and the protocols, each only when present. */
  function BriefParts(row: SummaryRow): seq<string> {
    (if row.populationAge != "" then ["Population Age: " + row.populationAge] else []) +
    (if row.gender != "" then ["Gender: " + row.gender] else []) +
    (if row.trialProtocols != [] then ["Trial Protocols: " + Join(row.trialProtocols, " | ")] else [])
  }

  function BriefSummary(row: SummaryRow): string {
    Join(BriefParts(row), " | ")
  }

  /** The brief summary is empty exactly when the row has no age, gender or protocol, and it
      mentions each of those the row has. */
  lemma BriefSummaryParts(row: SummaryRow)
    ensures BriefSummary(row) == "" <==>
              row.populationAge == "" && row.gender == "" && row.trialProtocols == []
    ensures row.populationAge != "" ==>
              StartsWith(BriefSummary(row), "Population Age: " + row.populationAge)
    ensures row.gender != "" ==> Contains(BriefSummary(row), "Gender: " + row.gender)
    ensures row.trialProtocols != [] ==>
              Contains(BriefSummary(row), "Trial Protocols: " + Join(row.trialProtocols, " | "))
  {
    var parts := BriefParts(row);
    forall k | 0 <= k < |parts| ensures parts[k] != "" {
      assert |parts[k]| > 0;
    }
    JoinEmptyIff(parts, " | ");
    if row.populationAge != "" {
      JoinStartsWithFirst(parts, " | ");
    }
    if row.gender != "" {
      var k := if row.populationAge != "" then 1 else 0;
      JoinContainsItems(parts, " | ", k);
    }
    if row.trialProtocols != [] {
      JoinContainsItems(parts, " | ", |parts| - 1);
    }
  }

  /** The study dict built for one merged row. */
  function StudyOf(row: SummaryRow): Study {
    var text := ClassificationText(row);
    var c := ClinicalTrials.Classify("UNKNOWN", text);
    Study(
      nctId := row.eudractNumber,
      source := Some("euctr"),
      secondaryId := Some(""),
      trialLink := Some(TrialLink(row)),
      title := Some(row.fullTitle),
      studyType := Some("UNKNOWN"),
      phase := Some("NA"),
      status := Some(NormalizeStatus(row.trialProtocols)),
      sponsor := Some(if row.sponsorName != "" then row.sponsorName else "Unknown"),
      admissionDate := Some(row.startDate),
      lastUpdateDate := Some(""),
      hasResults := Some("no"),
      resultsLastUpdate := Some(""),
      pubmedLinks := Some(""),
      interventionTypes := Some(""),
      studyDesign := Some(c.studyDesign),
      therapeuticClass := Some(c.therapeuticClass),
      focusTags := Some(Join(c.focus, ",")),
      pdacMatchReason := Some(ClinicalTrials.PdacMatchReason(text)),
      conditions := Some(Join(Uniqued(row.medicalConditions + row.diseases), " | ")),
      interventions := Some(""),
      primaryOutcomes := Some(""),
      secondaryOutcomes := Some(""),
      inclusionCriteria := Some(""),
      exclusionCriteria := Some(""),
      locations := Some(""),
      briefSummary := Some(BriefSummary(row)),
      detailedDescription := Some(""))
  }

  /** What every EUCTR study carries: the number as its id, a sponsor, a link and a status
      that are never empty, an unknown design with a known therapeutic class, and conditions
      that name every stripped condition and disease of the row. */
  lemma StudyOfFields(row: SummaryRow)
    ensures var s := StudyOf(row);
            s.nctId == row.eudractNumber && s.source == Some("euctr") &&
            s.studyType == Some("UNKNOWN") && s.phase == Some("NA") && s.hasResults == Some("no")
    ensures var s := StudyOf(row);
            s.sponsor.Some? && s.sponsor.value != "" &&
            (row.sponsorName != "" ==> s.sponsor.value == row.sponsorName)
    ensures var s := StudyOf(row);
            s.trialLink.Some? && s.trialLink.value != "" &&
            (row.link != "" ==> s.trialLink.value == row.link) &&
            (row.link == "" ==> StartsWith(s.trialLink.value, SearchLinkPrefix))
    ensures var s := StudyOf(row);
            s.status.Some? && s.status.value != "" &&
            (s.status.value == "NA" <==>
               forall k :: 0 <= k < |row.trialProtocols| ==>
                 ProtocolStatus(row.trialProtocols[k]) in {"", "NA"})
    ensures var s := StudyOf(row);
            s.studyDesign == Some(ClinicalTrials.Unknown) &&
            s.therapeuticClass.Some? && s.therapeuticClass.value != ClinicalTrials.Unknown
    ensures var s := StudyOf(row);
            forall c :: c in row.medicalConditions + row.diseases && Trim(c) != "" ==>
              Contains(s.conditions.value, Trim(c))
  {
    var s := StudyOf(row);
    StatusNa(row.trialProtocols);
    ClinicalTrials.StudyDesignKnown("UNKNOWN", "UNKNOWN");
    ClinicalTrials.ClassifyNeverUnknown("UNKNOWN", ClassificationText(row));
    if row.link == "" {
      assert s.trialLink.value[..|SearchLinkPrefix|] == SearchLinkPrefix;
    }
    var all := row.medicalConditions + row.diseases;
    var u := Uniqued(all);
    UniquedSpec(all);
    forall c | c in all && Trim(c) != "" ensures Contains(s.conditions.value, Trim(c)) {
      assert TrimsTo(all, Trim(c));
      var k :| 0 <= k < |u| && u[k] == Trim(c);
      JoinContainsItems(u, " | ", k);
    }
  }

  /** The rows that pass the PDAC candidate filter. */
  predicate Candidate(row: SummaryRow) {
    Ctis.IsPdacCandidate(ClassificationText(row))
  }

  /** The `normalized` list: one study per candidate row, in row order. */
  function Studies(rows: seq<SummaryRow>): seq<Study> {
    Collect(rows, Candidate, StudyOf)
  }

  lemma StudiesStep(rows: seq<SummaryRow>, i: nat)
    requires i < |rows|
    ensures Studies(rows[..i + 1]) ==
              if Candidate(rows[i]) then Studies(rows[..i]) + [StudyOf(rows[i])] else Studies(rows[..i])
  {
    CollectStep(rows, Candidate, StudyOf, i);
  }

  /** One study per candidate row and no other: no more studies than rows. */
  lemma StudiesMembers(rows: seq<SummaryRow>)
    ensures |Studies(rows)| <= |rows|
    ensures forall s :: s in Studies(rows) <==> exists r :: r in rows && Candidate(r) && s == StudyOf(r)
  {
    CollectMembers(rows, Candidate, StudyOf);
  }

  /** No two rows share a stripped number. */
  predicate DistinctNumbers(rows: seq<SummaryRow>) {
    forall a, b :: 0 <= a < b < |rows| ==> Trim(rows[a].eudractNumber) != Trim(rows[b].eudractNumber)
  }

  /** The numbers of the candidate rows, in order: the ids of the studies. */
  function CandidateNumbers(rows: seq<SummaryRow>): seq<string>
    decreases |rows|
  {
    if rows == [] then []
    else
      var init := CandidateNumbers(rows[..|rows| - 1]);
      var row := rows[|rows| - 1];
      if Candidate(row) then init + [row.eudractNumber] else init
  }

  /** The studies' ids are the candidate rows' numbers. */
  lemma {:induction false} StudyIds(rows: seq<SummaryRow>)
    ensures |Studies(rows)| == |CandidateNumbers(rows)|
    ensures forall k :: 0 <= k < |Studies(rows)| ==> Studies(rows)[k].nctId == CandidateNumbers(rows)[k]
    decreases |rows|
  {
    if rows != [] {
      StudyIds(rows[..|rows| - 1]);
    }
  }

  /** Each candidate number is the number of a candidate row. */
  lemma {:induction false} CandidateNumbersFrom(rows: seq<SummaryRow>)
    ensures forall x :: x in CandidateNumbers(rows) ==>
              exists j :: 0 <= j < |rows| && Candidate(rows[j]) && rows[j].eudractNumber == x
    decreases |rows|
  {
    if rows != [] {
      var n := |rows| - 1;
      var init := rows[..n];
      CandidateNumbersFrom(init);
      forall x | x in CandidateNumbers(rows)
        ensures exists j :: 0 <= j < |rows| && Candidate(rows[j]) && rows[j].eudractNumber == x
      {
        if x in CandidateNumbers(init) {
          var j :| 0 <= j < n && Candidate(init[j]) && init[j].eudractNumber == x;
          assert rows[j] == init[j];
        } else {
          assert Candidate(rows[n]) && rows[n].eudractNumber == x;
        }
      }
    }
  }

  /** Rows with distinct numbers give candidate numbers that are distinct. */
  lemma {:induction false} CandidateNumbersDistinct(rows: seq<SummaryRow>)
    requires DistinctNumbers(rows)
    ensures forall a, b :: 0 <= a < b < |CandidateNumbers(rows)| ==>
              Trim(CandidateNumbers(rows)[a]) != Trim(CandidateNumbers(rows)[b])
    decreases |rows|
  {
    if rows != [] {
      var n := |rows| - 1;
      var init := rows[..n];
      assert DistinctNumbers(init) by {
        forall a, b | 0 <= a < b < |init|
          ensures Trim(init[a].eudractNumber) != Trim(init[b].eudractNumber)
        {
          assert init[a] == rows[a] && init[b] == rows[b];
        }
      }
      CandidateNumbersDistinct(init);
      var xs := CandidateNumbers(init);
      CandidateNumbersFrom(init);
      forall a | 0 <= a < |xs| ensures Trim(xs[a]) != Trim(rows[n].eudractNumber) {
        assert xs[a] in xs;
        var j :| 0 <= j < n && Candidate(init[j]) && init[j].eudractNumber == xs[a];
        assert rows[j] == init[j];
      }
    }
  }

  /** The rows of the merged dict, in the order of merged.values(). */
  function MergedRows(rows: seq<SummaryRow>): (r: seq<SummaryRow>)
    ensures |r| == |MergeRows(rows).keys|
    ensures forall k :: 0 <= k < |r| ==>
              MergeRows(rows).keys[k] in MergeRows(rows).entries &&
              r[k] == MergeRows(rows).entries[MergeRows(rows).keys[k]]
  {
    var m := MergeRows(rows);
    MergedKeys(rows);
    seq(|m.keys|, k requires 0 <= k < |m.keys| => m.entries[m.keys[k]])
  }

  /** An entry's number is the number of one of the rows as it was read. */
  lemma {:induction false} MergedEntryNumber(rows: seq<SummaryRow>, key: string)
    requires key in MergeRows(rows).entries
    ensures MergeRows(rows).entries[key].eudractNumber in Numbers(rows)
    decreases |rows|
  {
    var n := |rows| - 1;
    var init := rows[..n];
    var m := MergeRows(init);
    assert MergeRows(rows) == MergeStep(m, rows[n]);
    assert Numbers(rows)[n] == rows[n].eudractNumber;
    if key in m.entries {
      MergedEntryNumber(init, key);
      var j :| 0 <= j < n && Numbers(init)[j] == m.entries[key].eudractNumber;
      assert Numbers(rows)[j] == Numbers(init)[j];
    }
    MergedKeyIff(init, key);
    MergeStepEntry(m, rows[n], key);
  }

  /** The merged rows carry distinct, non-blank numbers: each trial is built at most once. */
  lemma MergedRowsDistinct(rows: seq<SummaryRow>)
    ensures DistinctNumbers(MergedRows(rows))
    ensures forall k :: 0 <= k < |MergedRows(rows)| ==> Trim(MergedRows(rows)[k].eudractNumber) != ""
  {
    var m := MergeRows(rows);
    var r := MergedRows(rows);
    MergedKeys(rows);
    MergedNumbers(rows);
    UniquedSpec(Numbers(rows));
    forall k | 0 <= k < |r| ensures HasKey(r[k], m.keys[k]) && m.keys[k] != "" {
      assert m.keys[k] in m.keys;
    }
  }

  /** The loop that turns merged.values() into study dicts, skipping non-candidates. */
  method BuildStudies(rows: seq<EuctrSummaryRow>, ghost vals: seq<SummaryRow>)
    returns (studies: seq<Study>)
    requires Mirrors(rows, vals)
    ensures studies == Studies(vals)
  {
    studies := [];
    for i := 0 to |rows|
      invariant studies == Studies(vals[..i])
    {
      var row := rows[i].Value();
      StudiesStep(vals, i);
      var text := ClassificationText(row);
      if !Ctis.IsPdacCandidate(text) {
        continue;
      }
      studies := studies + [StudyOf(row)];
    }
    assert vals[..|rows|] == vals;
  }

  /** fetch_trials_euctr_pdac after the fetch: the row objects of every query term's result
      stream, in order, are merged by number in place and turned into studies. */
  method FetchTrialsEuctr(rows: seq<EuctrSummaryRow>, ghost vals: seq<SummaryRow>)
    returns (studies: seq<Study>)
    requires Distinct(rows) && Mirrors(rows, vals)
    modifies rows
    ensures studies == Studies(MergedRows(vals))
  {
    var keys, merged := MergeByNumber(rows, vals);
    MergedKeys(vals);
    var values := seq(|keys|, k requires 0 <= k < |keys| => merged[keys[k]]);
    ghost var expected := MergedRows(vals);
    assert Mirrors(values, expected);
    studies := BuildStudies(values, expected);
  }

  /** The fetcher returns each trial at most once: study ids are stripped-distinct and never
      blank, and each one is the number of a row as it was read. */
  lemma FetchedStudies(vals: seq<SummaryRow>)
    ensures var studies := Studies(MergedRows(vals));
            (forall a, b :: 0 <= a < b < |studies| ==> Trim(studies[a].nctId) != Trim(studies[b].nctId)) &&
            (forall k :: 0 <= k < |studies| ==> Trim(studies[k].nctId) != "" && studies[k].nctId in Numbers(vals))
  {
    var r := MergedRows(vals);
    var xs := CandidateNumbers(r);
    MergedRowsDistinct(vals);
    StudyIds(r);
    CandidateNumbersDistinct(r);
    CandidateNumbersFrom(r);
    forall k | 0 <= k < |xs| ensures Trim(xs[k]) != "" && xs[k] in Numbers(vals) {
      assert xs[k] in xs;
      var j :| 0 <= j < |r| && Candidate(r[j]) && r[j].eudractNumber == xs[k];
      var key := MergeRows(vals).keys[j];
      MergedEntryNumber(vals, key);
    }
  }
}
