/** Shapes shared by the ingestion code: nullable text cells, JSON payload values, the
    two stored rows (clinical_trials and clinical_trial_details) and the study dict the
    registry fetchers hand to the upsert. */
module Records {

  datatype Option<T> = None | Some(value: T)

  /** A nullable text column, or a dict entry that may be absent or None. */
  type Cell = Option<string>

  /** `(value or "")` for a text cell. */
  function OrEmpty(c: Cell): string {
    if c.Some? then c.value else ""
  }

  /** A decoded JSON payload value (numbers are integers only). */
  datatype Json =
    | JNull
    | JBool(b: bool)
    | JNum(n: int)
    | JStr(s: string)
    | JList(items: seq<Json>)
    | JObj(fields: map<string, Json>)

  /** Python truthiness of a payload value. */
  predicate Truthy(j: Json) {
    match j
    case JNull => false
    case JBool(b) => b
    case JNum(n) => n != 0
    case JStr(s) => s != ""
    case JList(items) => items != []
    case JObj(fields) => fields != map[]
  }

  /** `d.get(key)` on a JSON object; None for a missing key. */
  function Get(d: map<string, Json>, key: string): Json {
    if key in d then d[key] else JNull
  }

  /** `d.get(key, default)`: the default only for a missing key, not for a None value. */
  function GetOr(d: map<string, Json>, key: string, default: Json): Json {
    if key in d then d[key] else default
  }

  function DigitChar(d: nat): char
    requires d < 10
  {
    ('0' as int + d) as char
  }

  /** The number a string of decimal digits denotes (the inverse of Decimal). */
  function DigitsValue(s: string): nat
    requires forall i :: 0 <= i < |s| ==> '0' <= s[i] <= '9'
    decreases |s|
  {
    if s == [] then 0 else DigitsValue(s[..|s| - 1]) * 10 + (s[|s| - 1] as int - '0' as int)
  }

  /** The decimal digits of a natural number: no leading zero, and they read back as `n`. */
  function Decimal(n: nat): (r: string)
    ensures r != []
    ensures forall i :: 0 <= i < |r| ==> '0' <= r[i] <= '9'
    ensures |r| > 1 ==> r[0] != '0'
    ensures DigitsValue(r) == n
    decreases n
  {
    if n < 10 then [DigitChar(n)] else Decimal(n / 10) + [DigitChar(n % 10)]
  }

  /** Python's str() of a payload value: None, True and False by name, an integer as an
      optional minus sign and its decimal digits. Lists and objects get a fixed stand-in
      for their repr. */
  function PyStr(j: Json): (r: string)
    ensures j.JStr? ==> r == j.s
    ensures !j.JStr? ==> r != ""
    ensures j.JNull? ==> r == "None"
    ensures j.JBool? ==> r == (if j.b then "True" else "False")
    ensures j.JNum? ==>
              var digits := if j.n < 0 then r[1..] else r;
              (r[0] == '-' <==> j.n < 0) &&
              digits != [] && (forall i :: 0 <= i < |digits| ==> '0' <= digits[i] <= '9') &&
              DigitsValue(digits) == (if j.n < 0 then -j.n else j.n)
  {
    match j
    case JNull => "None"
    case JBool(b) => if b then "True" else "False"
    case JNum(n) => if n < 0 then "-" + Decimal(-n) else Decimal(n)
    case JStr(s) => s
    case JList(_) => "[...]"
    case JObj(_) => "{...}"
  }

  /** One row of clinical_trials, keyed by nct_id in the store. */
  datatype TrialRecord = TrialRecord(
    source: Cell,
    secondaryId: Cell,
    trialLink: Cell,
    title: Cell,
    studyType: Cell,
    phase: Cell,
    status: Cell,
    sponsor: Cell,
    admissionDate: Cell,
    lastUpdateDate: Cell,
    hasResults: Cell,
    resultsLastUpdate: Cell,
    pubmedLinks: Cell,
    interventionTypes: Cell,
    studyDesign: Cell,
    therapeuticClass: Cell,
    focusTags: Cell,
    pdacMatchReason: Cell,
    noiseFlags: Cell)

  /** One row of clinical_trial_details, keyed by nct_id in the store. */
  datatype TrialDetails = TrialDetails(
    conditions: Cell,
    interventions: Cell,
    primaryOutcomes: Cell,
    secondaryOutcomes: Cell,
    inclusionCriteria: Cell,
    exclusionCriteria: Cell,
    locations: Cell,
    briefSummary: Cell,
    detailedDescription: Cell)

  /** A details row freshly created with only its key set. */
  const EmptyDetails := TrialDetails(None, None, None, None, None, None, None, None, None)

  /** The keys of a fetched study dict that the upsert loop reads (the fetchers emit more,
      such as primary_completion_date); `None` is a missing or None entry. */
  datatype Study = Study(
    nctId: string,
    source: Cell,
    secondaryId: Cell,
    trialLink: Cell,
    title: Cell,
    studyType: Cell,
    phase: Cell,
    status: Cell,
    sponsor: Cell,
    admissionDate: Cell,
    lastUpdateDate: Cell,
    hasResults: Cell,
    resultsLastUpdate: Cell,
    pubmedLinks: Cell,
    interventionTypes: Cell,
    studyDesign: Cell,
    therapeuticClass: Cell,
    focusTags: Cell,
    pdacMatchReason: Cell,
    conditions: Cell,
    interventions: Cell,
    primaryOutcomes: Cell,
    secondaryOutcomes: Cell,
    inclusionCriteria: Cell,
    exclusionCriteria: Cell,
    locations: Cell,
    briefSummary: Cell,
    detailedDescription: Cell)
}
